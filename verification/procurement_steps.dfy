/** What each step of the procurement pipeline does, in the columns of the rows and the fields of the
    workers it touches (internal/preflight/runner.go, internal/admit/runner.go,
    internal/server/request_handlers.go). */
module ProcurementSteps {
  import opened Procurement
  import opened Wrappers

  // ----- The states -----

  /** How far a request has come. */
  function Progress(st: RequestState): nat {
    match st
    case Pending => 0
    case Preflighting => 1
    case NeedsReview => 2
    case AutoPass => 3
    case Approved => 3
    case Fetching => 4
    case Indexed => 5
    case Denied => 5
  }

  /** Legal edges lead forward.  A request is fetched only from auto_pass or approved, approved only
      from needs_review, judged only in preflighting, and denied while pending, in preflight, in
      review or in fetching; indexed and denied are the end, and there is no other. */
  lemma LegalEdges(from: RequestState, to: RequestState)
    ensures CanTransitionTo(from, to) ==> Progress(from) < Progress(to)
    ensures CanTransitionTo(from, Fetching) <==> from.AutoPass? || from.Approved?
    ensures CanTransitionTo(from, Approved) <==> from.NeedsReview?
    ensures CanTransitionTo(from, AutoPass) <==> from.Preflighting?
    ensures CanTransitionTo(from, NeedsReview) <==> from.Preflighting?
    ensures CanTransitionTo(from, Preflighting) <==> from.Pending?
    ensures CanTransitionTo(from, Indexed) <==> from.Fetching?
    ensures CanTransitionTo(from, Denied) <==> from.Pending? || from.Preflighting? || from.NeedsReview? || from.Fetching?
    ensures !CanTransitionTo(from, Pending)
    ensures (forall st :: !CanTransitionTo(from, st)) <==> from.Indexed? || from.Denied?
  {
    match from
    case Pending => assert CanTransitionTo(from, Preflighting);
    case Preflighting => assert CanTransitionTo(from, Denied);
    case AutoPass => assert CanTransitionTo(from, Fetching);
    case NeedsReview => assert CanTransitionTo(from, Approved);
    case Approved => assert CanTransitionTo(from, Fetching);
    case Fetching => assert CanTransitionTo(from, Indexed);
    case Indexed =>
    case Denied =>
  }

  /** A transition is refused as illegal whatever the row, and otherwise unless the row is there in the
      state it is expected in; then it writes the state, the time and the columns that are given. */
  lemma TransitionExact(rows: Rows, id: nat, from: RequestState, to: RequestState, f: Fields, now: int)
    ensures TransitionError(rows, id, from, to) == IllegalTransition <==> !CanTransitionTo(from, to)
    ensures TransitionError(rows, id, from, to) == Ok <==> CanTransitionTo(from, to) && id in rows && rows[id].state == from
    ensures id in rows ==>
              var r, r' := rows[id], Written(rows[id], to, f, now);
              && r'.state == to && r'.changedAt == now && r'.sourceUrl == r.sourceUrl
              && r'.preflight == (if f.preflight.Some? then f.preflight else r.preflight)
              && r'.denialReason == (if f.denialReason.Some? then f.denialReason else r.denialReason)
              && r'.fetchedSha == (if f.fetchedSha.Some? then f.fetchedSha else r.fetchedSha)
              && r'.committedSha == (if f.committedSha.Some? then f.committedSha else r.committedSha)
              && r'.retryCount == (if f.retries.Some? then f.retries.value else r.retryCount)
  {
  }

  // ----- Rows -----

  /** No row but that of id differs. */
  predicate OnlyRow(s: World, s': World, id: nat) {
    s'.rows.Keys == s.rows.Keys + {id} && forall j | j in s.rows && j != id :: s'.rows[j] == s.rows[j]
  }

  /** The row of id has moved from one state to another, now, and kept its URL. */
  predicate Moved(s: World, s': World, id: nat, from: RequestState, to: RequestState) {
    && OnlyRow(s, s', id) && id in s.rows && id in s'.rows
    && s.rows[id].state == from && s'.rows[id].state == to
    && s'.rows[id].changedAt == s.clock && s'.rows[id].sourceUrl == s.rows[id].sourceUrl
  }

  predicate SameFetch(r: Request, r': Request) {
    r'.fetchedSha == r.fetchedSha && r'.committedSha == r.committedSha && r'.retryCount == r.retryCount
  }

  predicate SameText(r: Request, r': Request) {
    r'.preflight == r.preflight && r'.denialReason == r.denialReason
  }

  // ----- Submitters and reviewers -----

  lemma SubmitExact(s: World, id: nat, url: Text, maxRetries: nat)
    requires id !in s.rows
    ensures Enabled(s, Submit(id, url))
    ensures var s' := After(s, Submit(id, url), maxRetries);
            && s' == s.(rows := s'.rows) && OnlyRow(s, s', id)
            && s'.rows[id].state == Pending && s'.rows[id].sourceUrl == url && s'.rows[id].preflight.None? && s'.rows[id].retryCount == 0
  {
  }

  /** A reviewer approves exactly what needs review. */
  lemma ApproveExact(s: World, id: nat, maxRetries: nat)
    ensures Enabled(s, Approve(id)) <==> id in s.rows && s.rows[id].state == NeedsReview
    ensures Enabled(s, Approve(id)) ==>
              var s' := After(s, Approve(id), maxRetries);
              && Moved(s, s', id, NeedsReview, Approved) && SameText(s.rows[id], s'.rows[id]) && SameFetch(s.rows[id], s'.rows[id])
              && s'.hist == s.hist.(approved := s.hist.approved + {id})
              && s' == s.(rows := s'.rows, hist := s'.hist)
  {
  }

  /** And denies what is pending, in preflight or in review, with the reason on record. */
  lemma DenyExact(s: World, id: nat, from: RequestState, reason: Text, maxRetries: nat)
    ensures Enabled(s, Deny(id, from, reason)) <==>
              id in s.rows && s.rows[id].state == from && (from == Pending || from == Preflighting || from == NeedsReview)
    ensures Enabled(s, Deny(id, from, reason)) ==>
              var s' := After(s, Deny(id, from, reason), maxRetries);
              && Moved(s, s', id, from, Denied) && SameFetch(s.rows[id], s'.rows[id])
              && s'.rows[id].preflight == s.rows[id].preflight
              && s'.rows[id].denialReason == (if reason.Some? then reason else s.rows[id].denialReason)
              && s'.hist == s.hist.(denied := s.hist.denied + {id})
              && s' == s.(rows := s'.rows, hist := s'.hist)
  {
  }

  // ----- The process -----

  /** A crash takes the workers and leaves the store; a sweep takes back the old fetching rows. */
  lemma CrashExact(s: World, maxRetries: nat)
    requires s.proc.up
    ensures var s' := After(s, Crash, maxRetries);
            && s'.rows == s.rows && s'.clock == s.clock && !s'.proc.up
            && |s'.pre| == |s.pre| && (forall w | 0 <= w < |s'.pre| :: s'.pre[w] == PreIdle)
            && |s'.adm| == |s.adm| && (forall w | 0 <= w < |s'.adm| :: s'.adm[w] == AdmitIdle)
            && (forall id :: id in s'.hist.lost <==> id in s.hist.lost || exists w :: 0 <= w < |s.adm| && Reports(s.adm[w]) == Some(id))
            && s'.hist == s.hist.(lost := s'.hist.lost)
  {
    var s' := After(s, Crash, maxRetries);
    forall id
      ensures id in AuditingIds(s.adm) <==> exists w :: 0 <= w < |s.adm| && Reports(s.adm[w]) == Some(id)
    {
      if w :| 0 <= w < |s.adm| && Reports(s.adm[w]) == Some(id) {
        assert s.adm[w] in s.adm;
      }
      if id in AuditingIds(s.adm) {
        var a :| a in s.adm && a.Auditing? && a.end.id == id;
        var w :| 0 <= w < |s.adm| && s.adm[w] == a;
        assert Reports(s.adm[w]) == Some(id);
      }
    }
  }

  lemma SweepExact(s: World, before: int, dbOk: bool, maxRetries: nat)
    requires s.proc.up && !s.proc.swept
    ensures var s' := After(s, Sweep(before, dbOk), maxRetries);
            && s'.rows.Keys == s.rows.Keys
            && (forall id | id in s.rows ::
                  if dbOk && !s.proc.cancelled && s.rows[id].state == Fetching && s.rows[id].changedAt < before then
                    && s'.rows[id].state == Approved && s'.rows[id].changedAt == s.clock && s'.rows[id].sourceUrl == s.rows[id].sourceUrl
                    && SameText(s.rows[id], s'.rows[id]) && SameFetch(s.rows[id], s'.rows[id])
                  else s'.rows[id] == s.rows[id])
            && s'.proc == s.proc.(swept := true) && s'.pre == s.pre && s'.adm == s.adm && s'.clock == s.clock
  {
  }

  /** A boot starts a process that has neither swept nor been told to stop. */
  lemma BootExact(s: World, maxRetries: nat)
    requires !s.proc.up
    ensures After(s, Boot, maxRetries) == s.(proc := Process(true, false, false))
    ensures Enabled(s, Boot) && !Enabled(s, Crash) && !Enabled(s, Cancel)
  {
  }

  /** Being told to stop and the passing of time change nothing else. */
  lemma CancelExact(s: World, seconds: nat, maxRetries: nat)
    requires s.proc.up
    ensures After(s, Cancel, maxRetries) == s.(proc := s.proc.(cancelled := true))
    ensures After(s, Tick(seconds), maxRetries) == s.(clock := s.clock + seconds)
  {
  }

  // ----- The preflight pool -----

  /** A listing is of pending rows, in the admit pool of rows let through or approved, as they are; it
      needs an idle worker of a process that is up and, in the admit pool, has swept. */
  lemma ListExact(s: World, w: nat, ids: seq<nat>, cands: seq<Snapshot>)
    ensures Enabled(s, PreList(w, ids)) <==>
              && s.proc.up && !s.proc.cancelled && w < |s.pre| && s.pre[w] == PreIdle
              && forall id | id in ids :: id in s.rows && s.rows[id].state == Pending
    ensures Enabled(s, AdmitList(w, cands)) <==>
              && s.proc.up && s.proc.swept && !s.proc.cancelled && w < |s.adm| && s.adm[w] == AdmitIdle
              && forall c | c in cands ::
                   && c.id in s.rows && (s.rows[c.id].state == AutoPass || s.rows[c.id].state == Approved)
                   && c.state == s.rows[c.id].state && c.sourceUrl == s.rows[c.id].sourceUrl && c.preflight == s.rows[c.id].preflight
  {
  }

  /** A candidate is won exactly when it is still pending. */
  lemma PreTryExact(s: World, w: nat, dbOk: bool, maxRetries: nat)
    requires Enabled(s, PreTry(w, dbOk))
    ensures var s', ids := After(s, PreTry(w, dbOk), maxRetries), s.pre[w].ids;
            && |s'.pre| == |s.pre| && (forall v | 0 <= v < |s.pre| && v != w :: s'.pre[v] == s.pre[v])
            && s' == s.(rows := s'.rows, pre := s'.pre)
            && if ids == [] || s.proc.cancelled then s'.pre[w] == PreIdle && s'.rows == s.rows
               else if dbOk && ids[0] in s.rows && s.rows[ids[0]].state == Pending then
                 && s'.pre[w] == Checking(ids[0]) && Moved(s, s', ids[0], Pending, Preflighting)
                 && SameText(s.rows[ids[0]], s'.rows[ids[0]]) && SameFetch(s.rows[ids[0]], s'.rows[ids[0]])
               else s'.pre[w] == PreListed(ids[1..]) && s'.rows == s.rows
  {
  }

  /** A verdict is one of three; anything else leaves the row to an operator. */
  lemma CheckExact(s: World, w: nat, v: Verdict, maxRetries: nat)
    requires Enabled(s, Check(w, v))
    ensures var s' := After(s, Check(w, v), maxRetries);
            && s' == s.(pre := s.pre[w := s'.pre[w]])
            && s'.pre[w] == if v.next == AutoPass || v.next == NeedsReview || v.next == Denied then Deciding(s.pre[w].id, v) else PreIdle
  {
  }

  /** Deciding workers hold such a verdict. */
  ghost predicate VerdictsValid(s: World) {
    forall w | 0 <= w < |s.pre| && s.pre[w].Deciding? ::
      s.pre[w].verdict.next == AutoPass || s.pre[w].verdict.next == NeedsReview || s.pre[w].verdict.next == Denied
  }

  lemma VerdictsStayValid(s: World, step: Step, maxRetries: nat)
    requires VerdictsValid(s) && Enabled(s, step)
    ensures VerdictsValid(After(s, step, maxRetries))
  {
  }

  /** A verdict goes to the state it names and onto the row, with the reason of a denial; unless a
      reviewer denied the request first, in which case nothing is written. */
  lemma DecideExact(s: World, w: nat, dbOk: bool, maxRetries: nat)
    requires Inv(s, maxRetries) && VerdictsValid(s) && Enabled(s, Decide(w, dbOk))
    ensures var s', id, v := After(s, Decide(w, dbOk), maxRetries), s.pre[w].id, s.pre[w].verdict;
            && s'.pre == s.pre[w := PreIdle] && s' == s.(rows := s'.rows, pre := s'.pre)
            && if dbOk && id !in s.hist.denied then
                 && Moved(s, s', id, Preflighting, v.next) && SameFetch(s.rows[id], s'.rows[id])
                 && s'.rows[id].preflight == Some(v)
                 && s'.rows[id].denialReason == (if v.next == Denied && v.reason.Some? then v.reason else s.rows[id].denialReason)
               else s'.rows == s.rows
  {
    assert Checks(s.pre[w]) == Some(s.pre[w].id) && InPreflight(s, s.pre[w].id);
  }

  // ----- The admit pool -----

  /** A candidate is won exactly when it is still in the state it was listed in. */
  lemma AdmitTryExact(s: World, w: nat, dbOk: bool, maxRetries: nat)
    requires Inv(s, maxRetries) && Enabled(s, AdmitTry(w, dbOk))
    ensures var s', cands := After(s, AdmitTry(w, dbOk), maxRetries), s.adm[w].cands;
            && s'.adm == s.adm[w := s'.adm[w]] && s'.pre == s.pre && s'.clock == s.clock && s'.proc == s.proc
            && s'.hist == s.hist.(tallies := s'.hist.tallies)
            && if cands == [] || s.proc.cancelled then s'.adm[w] == AdmitIdle && s'.rows == s.rows
               else if dbOk && cands[0].id in s.rows && s.rows[cands[0].id].state == cands[0].state then
                 && TallyOf(s'.hist, cands[0].id) == TallyOf(s.hist, cands[0].id).(won := TallyOf(s.hist, cands[0].id).won + 1, latest := 0)
                 && s'.adm[w] == Owned(cands[0], [], Trying) && Moved(s, s', cands[0].id, cands[0].state, Fetching)
                 && SameText(s.rows[cands[0].id], s'.rows[cands[0].id]) && SameFetch(s.rows[cands[0].id], s'.rows[cands[0].id])
               else s'.adm[w] == AdmitListed(cands[1..]) && s'.rows == s.rows
  {
    TriesPassed(s, AdmitTry(w, dbOk));
  }

  /** An attempt is recorded with its receipt, and is the last one exactly when it succeeded, failed for
      good, or used up the retries. */
  lemma AttemptExact(s: World, w: nat, a: Attempt, maxRetries: nat)
    requires Enabled(s, RunAdmitOne(w, a))
    ensures var s', o := After(s, RunAdmitOne(w, a), maxRetries), s.adm[w];
            && s'.rows == s.rows && s'.adm == s.adm[w := s'.adm[w]] && s'.adm[w].Owned?
            && s'.adm[w].snap == o.snap && s'.adm[w].tries == o.tries + [a]
            && TallyOf(s'.hist, o.snap.id) == TallyOf(s.hist, o.snap.id).(runs := TallyOf(s.hist, o.snap.id).runs + 1, latest := TallyOf(s.hist, o.snap.id).latest + 1)
            && s'.adm[w].mode == (if a.Published? || !a.transient || |o.tries| >= maxRetries then Concluding else Waiting)
            && s'.hist.published == s.hist.published + (if a.Published? then {(o.snap.id, a.commit)} else {})
  {
  }

  /** The end of an ownership: the row is indexed with the receipt's commit and the blob's integrity, or
      denied with the last error, with the retries counted, and is reported to the audit next. */
  lemma ConcludeExact(s: World, w: nat, dbOk: bool, maxRetries: nat)
    requires Inv(s, maxRetries) && Enabled(s, Conclude(w, dbOk))
    ensures var s', id, tries := After(s, Conclude(w, dbOk), maxRetries), s.adm[w].snap.id, s.adm[w].tries;
            && tries != [] && s'.adm == s.adm[w := s'.adm[w]]
            && if !dbOk then s'.rows == s.rows && s'.adm[w] == AdmitIdle && s'.hist == s.hist
               else
                 && s'.adm[w] == Auditing(AdmitEnd(id, tries)) && s'.hist == s.hist.(ended := s.hist.ended[id := AdmitEnd(id, tries)])
                 && Moved(s, s', id, Fetching, if tries[|tries| - 1].Published? then Indexed else Denied)
                 && Ended(s.rows[id], s'.rows[id], tries)
  {
    assert OwnedTries(s.adm[w], maxRetries);
    assert Admits(s.adm[w]) == Some(s.adm[w].snap.id) && InFetching(s, s.adm[w].snap.id);
  }

  predicate Ended(r: Request, r': Request, tries: seq<Attempt>)
    requires tries != []
  {
    var last := tries[|tries| - 1];
    && r'.preflight == r.preflight
    && r'.retryCount == (if |tries| > 1 then |tries| - 1 else r.retryCount)
    && match last
       case Published(commit, integrity) =>
         && r'.denialReason == r.denialReason
         && r'.committedSha == (if commit.Some? then commit else r.committedSha)
         && r'.fetchedSha == (if integrity.Some? then integrity else r.fetchedSha)
       case Failed(_, message) =>
         && r'.denialReason == (if message.Some? then message else r.denialReason)
         && r'.committedSha == r.committedSha && r'.fetchedSha == r.fetchedSha
  }

  /** One audit call with what was committed. */
  lemma AuditExact(s: World, w: nat, maxRetries: nat)
    requires Enabled(s, Audit(w))
    ensures var s' := After(s, Audit(w), maxRetries);
            && s'.rows == s.rows && s'.adm == s.adm[w := AdmitIdle]
            && s'.hist == s.hist.(audits := s.hist.audits + [s.adm[w].end])
  {
  }

  /** A wait between attempts ends in the next attempt or, on cancellation, with the row left in fetching. */
  lemma WakeExact(s: World, w: nat, proceed: bool, maxRetries: nat)
    requires Enabled(s, Wake(w, proceed))
    ensures var s' := After(s, Wake(w, proceed), maxRetries);
            && s' == s.(adm := s.adm[w := s'.adm[w]])
            && s'.adm[w] == if proceed then Owned(s.adm[w].snap, s.adm[w].tries, Trying) else AdmitIdle
    ensures !proceed ==> s.proc.cancelled
  {
  }
}
