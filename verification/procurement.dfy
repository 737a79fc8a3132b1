/** The procurement pipeline: preflight pool, admit pool, reviewers, crashes and the boot sweep
    (internal/preflight/runner.go, internal/admit/runner.go, over the compare-and-set of
    internal/store/requests.go).

    The store is a map of rows whose transition succeeds only from the expected state.  Every
    other action of a worker is local to it, so one step below is one store call or one local
    decision of one worker; the pools, the reviewers and the process's death interleave freely.
 */
module Procurement {
  import opened Wrappers

  // ----- The store -----

  datatype RequestState = Pending | Preflighting | AutoPass | NeedsReview | Approved | Fetching | Indexed | Denied

  /** The legal edges; indexed and denied are terminal. */
  predicate CanTransitionTo(from: RequestState, to: RequestState) {
    match from
    case Pending => to.Preflighting? || to.Denied?
    case Preflighting => to.AutoPass? || to.NeedsReview? || to.Denied?
    case NeedsReview => to.Approved? || to.Denied?
    case AutoPass => to.Fetching?
    case Approved => to.Fetching?
    case Fetching => to.Indexed? || to.Denied?
    case Indexed => false
    case Denied => false
  }

  datatype CascadeHit = CascadeHit(url: Text, stripPrefix: Text)

  datatype Verdict = Verdict(next: RequestState, reason: Text, cascade: Option<CascadeHit>)

  /** A text column; None is the empty string. */
  type Text = Option<string>

  datatype Request = Request(
    state: RequestState,
    changedAt: int,
    sourceUrl: Text,
    preflight: Option<Verdict>,
    denialReason: Text,
    fetchedSha: Text,
    committedSha: Text,
    retryCount: nat)

  /** Columns written along with a transition; an empty field leaves its column alone. */
  datatype Fields = Fields(preflight: Option<Verdict>, denialReason: Text, fetchedSha: Text, committedSha: Text, retries: Option<nat>)

  const NO_FIELDS := Fields(None, None, None, None, None)

  function Or<T>(f: Option<T>, kept: Option<T>): Option<T> {
    if f.Some? then f else kept
  }

  type Rows = map<nat, Request>

  function Written(r: Request, to: RequestState, f: Fields, now: int): Request {
    Request(to, now, r.sourceUrl,
            Or(f.preflight, r.preflight),
            Or(f.denialReason, r.denialReason),
            Or(f.fetchedSha, r.fetchedSha),
            Or(f.committedSha, r.committedSha),
            if f.retries.Some? then f.retries.value else r.retryCount)
  }

  datatype StoreError = Ok | IllegalTransition | StateMismatch

  function TransitionError(rows: Rows, id: nat, from: RequestState, to: RequestState): StoreError {
    if !CanTransitionTo(from, to) then IllegalTransition
    else if id !in rows || rows[id].state != from then StateMismatch
    else Ok
  }

  predicate Stuck(r: Request, before: int) {
    r.state.Fetching? && r.changedAt < before
  }

  function Reclaimed(rows: Rows, before: int, now: int): Rows {
    map id | id in rows :: if Stuck(rows[id], before) then rows[id].(state := Approved, changedAt := now) else rows[id]
  }

  class RequestStore {
    var rows: Rows

    /** Moves one row if, and only if, the edge is legal and the row is still in `from`. */
    method TransitionRequest(id: nat, from: RequestState, to: RequestState, fields: Fields, now: int) returns (err: StoreError)
      modifies this
      ensures err == TransitionError(old(rows), id, from, to)
      ensures rows == if err.Ok? then old(rows)[id := Written(old(rows)[id], to, fields, now)] else old(rows)
    {
      if !CanTransitionTo(from, to) {
        return IllegalTransition;
      }
      if id !in rows || rows[id].state != from {
        return StateMismatch;
      }
      rows := rows[id := Written(rows[id], to, fields, now)];
      return Ok;
    }

    /** The boot sweep's recovery edge, outside the legal graph: one statement over all rows. */
    method ReclaimStuckFetching(before: int, now: int)
      modifies this
      ensures rows == Reclaimed(old(rows), before, now)
      ensures rows.Keys == old(rows).Keys
      ensures forall id | id in old(rows) && old(rows)[id].state.Fetching? && old(rows)[id].changedAt < before ::
                rows[id].state.Approved? && rows[id].changedAt == now && rows[id].retryCount == old(rows)[id].retryCount
      ensures forall id | id in old(rows) && !(old(rows)[id].state.Fetching? && old(rows)[id].changedAt < before) ::
                rows[id] == old(rows)[id]
    {
      rows := map id | id in rows ::
        if rows[id].state.Fetching? && rows[id].changedAt < before
        then rows[id].(state := Approved, changedAt := now) else rows[id];
    }
  }

  /** The sweep moves exactly the rows that have been in fetching since before the cutoff. */
  lemma ReclaimedExactly(rows: Rows, before: int, now: int, id: nat)
    requires id in rows
    ensures Reclaimed(rows, before, now).Keys == rows.Keys
    ensures rows[id].state.Fetching? && rows[id].changedAt < before ==> Reclaimed(rows, before, now)[id].state.Approved?
    ensures !(rows[id].state.Fetching? && rows[id].changedAt < before) ==> Reclaimed(rows, before, now)[id] == rows[id]
  {
    assert Reclaimed(rows, before, now).Keys == rows.Keys;
  }

  // ----- One ownership's attempts (processOwned) -----

  /** How one run of admitOne ended: with a Publish receipt, or with an error. */
  datatype Attempt = Published(commit: Text, integrity: Text) | Failed(transient: bool, message: Text)

  predicate IsTransient(a: Attempt) {
    a.Failed? && a.transient
  }

  /** Attempt number n (from 0) is the last one: success, a terminal error, or no retries left. */
  predicate Decisive(a: Attempt, n: nat, maxRetries: nat) {
    a.Published? || !a.transient || n >= maxRetries
  }

  /** The attempts of one ownership that has come to a decision. */
  predicate Decided(tries: seq<Attempt>, maxRetries: nat) {
    && tries != []
    && Decisive(tries[|tries| - 1], |tries| - 1, maxRetries)
    && forall i | 0 <= i < |tries| - 1 :: !Decisive(tries[i], i, maxRetries)
  }

  /** An ownership makes at most maxRetries + 1 attempts, retries only transient errors, and
      stops at the first success or terminal error. */
  lemma AttemptsBounded(tries: seq<Attempt>, maxRetries: nat)
    requires Decided(tries, maxRetries)
    ensures |tries| <= maxRetries + 1
    ensures forall i | 0 <= i < |tries| - 1 :: IsTransient(tries[i])
    ensures IsTransient(tries[|tries| - 1]) ==> |tries| == maxRetries + 1
  {
    if |tries| > maxRetries + 1 {
      assert Decisive(tries[maxRetries], maxRetries, maxRetries);
    }
    forall i | 0 <= i < |tries| - 1
      ensures IsTransient(tries[i])
    {
      assert !Decisive(tries[i], i, maxRetries);
    }
  }

  /** The attempt loop.  `cancelled(n)` says whether the wait before attempt n ends in
      ctx.Done; then the row is left in fetching and no decision is reached. */
  method ProcessOwned(outcome: nat -> Attempt, cancelled: nat -> bool, maxRetries: nat) returns (tries: seq<Attempt>, decided: bool)
    ensures forall i | 0 <= i < |tries| :: tries[i] == outcome(i)
    ensures decided ==> Decided(tries, maxRetries)
    ensures !decided ==> |tries| > 0 && cancelled(|tries|) && forall i | 0 <= i < |tries| :: !Decisive(tries[i], i, maxRetries)
    ensures forall i | 0 < i < |tries| :: !cancelled(i)
  {
    tries := [];
    var attempt := 0;
    while attempt <= maxRetries
      invariant attempt == |tries| <= maxRetries
      invariant forall i | 0 <= i < |tries| :: tries[i] == outcome(i) && !Decisive(tries[i], i, maxRetries)
      invariant forall i | 0 < i < |tries| :: !cancelled(i)
    {
      if attempt > 0 {
        if cancelled(attempt) {
          return tries, false;
        }
      }
      var a := outcome(attempt);
      tries := tries + [a];
      if a.Published? {
        return tries, true;
      }
      if !a.transient || attempt >= maxRetries {
        return tries, true;
      }
      attempt := attempt + 1;
    }
    assert false;
  }

  function Power5(n: nat): nat {
    if n == 0 then 1 else 5 * Power5(n - 1)
  }

  lemma {:induction false} Power5Grows(m: nat, n: nat)
    requires m <= n
    ensures 1 <= Power5(m) <= Power5(n)
    decreases n
  {
    if m < n {
      Power5Grows(m, n - 1);
    } else if n > 0 {
      Power5Grows(m - 1, n - 1);
    }
  }

  /** The default schedule in seconds, whose loop stops at the cap: 5 * 5^(attempt-1), at most
      five minutes, which is also the age at which the boot sweep calls a row stuck. */
  method DefaultRetryBackoff(attempt: int) returns (d: nat)
    ensures attempt <= 0 ==> d == 0
    ensures attempt > 0 ==> d == if Power5(attempt) < 300 then Power5(attempt) else 300
    ensures d == if attempt <= 0 then 0 else if attempt == 1 then 5 else if attempt == 2 then 25 else if attempt == 3 then 125 else 300
  {
    assert Power5(1) == 5 && Power5(2) == 25 && Power5(3) == 125 && Power5(4) == 625;
    if attempt >= 4 {
      Power5Grows(4, attempt);
    }
    if attempt <= 0 {
      return 0;
    }
    d := 5;
    for i := 1 to attempt
      invariant d == Power5(i) < 300
    {
      d := d * 5;
      if d >= 300 {
        Power5Grows(i + 1, attempt);
        return 300;
      }
    }
  }

  // ----- Workers, process and history -----

  /** What a listing remembers of a row, possibly long after the row has moved on. */
  datatype Snapshot = Snapshot(id: nat, state: RequestState, sourceUrl: Text, preflight: Option<Verdict>)

  datatype PreWorker = PreIdle | PreListed(ids: seq<nat>) | Checking(id: nat) | Deciding(id: nat, verdict: Verdict)

  datatype Mode = Trying | Waiting | Concluding

  /** The outcome an ownership commits to the store, with the attempts that led to it. */
  datatype AdmitEnd = AdmitEnd(id: nat, tries: seq<Attempt>)

  datatype AdmitWorker = AdmitIdle | AdmitListed(cands: seq<Snapshot>) | Owned(snap: Snapshot, tries: seq<Attempt>, mode: Mode) | Auditing(end: AdmitEnd)

  datatype Process = Process(up: bool, swept: bool, cancelled: bool)

  /** The admit history of one request: all runs of admitOne, how often it was won, the runs of
      each ownership that a sweep took back, and the runs of the latest ownership. */
  datatype Tally = Tally(runs: nat, won: nat, swept: seq<nat>, latest: nat)

  const NO_TALLY := Tally(0, 0, [], 0)

  /** What has happened so far: requests a reviewer denied or approved, Publish receipts, committed terminal
      admit transitions, audit calls made, committed transitions whose worker died before its
      audit call, and the admit history of each request. */
  datatype History = History(
    denied: set<nat>,
    approved: set<nat>,
    published: set<(nat, Text)>,
    ended: map<nat, AdmitEnd>,
    audits: seq<AdmitEnd>,
    lost: set<nat>,
    tallies: map<nat, Tally>)

  datatype World = World(rows: Rows, clock: int, proc: Process, pre: seq<PreWorker>, adm: seq<AdmitWorker>, hist: History)

  /** dbOk is false when the store call fails with an error of its own, changing nothing. */
  datatype Step =
    | Submit(id: nat, sourceUrl: Text)
    | Approve(id: nat)
    | Deny(id: nat, from: RequestState, reason: Text)
    | Tick(seconds: nat)
    | Cancel
    | Crash
    | Boot
    | Sweep(before: int, dbOk: bool)
    | PreList(w: nat, ids: seq<nat>)
    | PreTry(w: nat, dbOk: bool)
    | Check(w: nat, verdict: Verdict)
    | Decide(w: nat, dbOk: bool)
    | AdmitList(w: nat, cands: seq<Snapshot>)
    | AdmitTry(w: nat, dbOk: bool)
    | RunAdmitOne(w: nat, a: Attempt)
    | Wake(w: nat, proceed: bool)
    | Conclude(w: nat, dbOk: bool)
    | Audit(w: nat)

  predicate ValidNext(st: RequestState) {
    st.AutoPass? || st.NeedsReview? || st.Denied?
  }

  predicate Listable(rows: Rows, c: Snapshot) {
    && c.id in rows
    && c == Snapshot(c.id, rows[c.id].state, rows[c.id].sourceUrl, rows[c.id].preflight)
    && (c.state.AutoPass? || c.state.Approved?)
  }

  predicate PreReady(s: World, w: nat) {
    s.proc.up && w < |s.pre|
  }

  predicate AdmitReady(s: World, w: nat) {
    s.proc.up && s.proc.swept && w < |s.adm|
  }

  predicate Enabled(s: World, step: Step) {
    match step
    case Submit(id, _) => id !in s.rows
    case Approve(id) => TransitionError(s.rows, id, NeedsReview, Approved).Ok?
    case Deny(id, from, _) =>
      (from.Pending? || from.Preflighting? || from.NeedsReview?) && TransitionError(s.rows, id, from, Denied).Ok?
    case Tick(_) => true
    case Cancel => s.proc.up
    case Crash => s.proc.up
    case Boot => !s.proc.up
    case Sweep(_, _) => s.proc.up && !s.proc.swept
    case PreList(w, ids) =>
      PreReady(s, w) && s.pre[w].PreIdle? && !s.proc.cancelled && forall id | id in ids :: id in s.rows && s.rows[id].state.Pending?
    case PreTry(w, _) => PreReady(s, w) && s.pre[w].PreListed?
    case Check(w, _) => PreReady(s, w) && s.pre[w].Checking?
    case Decide(w, _) => PreReady(s, w) && s.pre[w].Deciding?
    case AdmitList(w, cands) =>
      AdmitReady(s, w) && s.adm[w].AdmitIdle? && !s.proc.cancelled && forall c | c in cands :: Listable(s.rows, c)
    case AdmitTry(w, _) => AdmitReady(s, w) && s.adm[w].AdmitListed?
    case RunAdmitOne(w, _) => AdmitReady(s, w) && s.adm[w].Owned? && s.adm[w].mode.Trying?
    case Wake(w, proceed) => AdmitReady(s, w) && s.adm[w].Owned? && s.adm[w].mode.Waiting? && (proceed || s.proc.cancelled)
    case Conclude(w, _) => AdmitReady(s, w) && s.adm[w].Owned? && s.adm[w].mode.Concluding?
    case Audit(w) => AdmitReady(s, w) && s.adm[w].Auditing?
  }

  function Cas(s: World, id: nat, from: RequestState, to: RequestState, f: Fields): World
    requires TransitionError(s.rows, id, from, to).Ok?
  {
    s.(rows := s.rows[id := Written(s.rows[id], to, f, s.clock)])
  }

  function SetPre(s: World, w: nat, p: PreWorker): World
    requires w < |s.pre|
  {
    s.(pre := s.pre[w := p])
  }

  function SetAdmit(s: World, w: nat, a: AdmitWorker): World
    requires w < |s.adm|
  {
    s.(adm := s.adm[w := a])
  }

  /** The columns `succeed` and `fail` write. */
  function EndFields(tries: seq<Attempt>): Fields
    requires tries != []
  {
    var last, retries := tries[|tries| - 1], |tries| - 1;
    var r := if retries > 0 then Some(retries) else None;
    match last
    case Published(commit, integrity) => Fields(None, None, integrity, commit, r)
    case Failed(_, message) => Fields(None, message, None, None, r)
  }

  function EndState(tries: seq<Attempt>): RequestState
    requires tries != []
  {
    if tries[|tries| - 1].Published? then Indexed else Denied
  }

  function AuditingIds(adm: seq<AdmitWorker>): set<nat> {
    set w | w in adm && w.Auditing? :: w.end.id
  }

  function TallyOf(h: History, id: nat): Tally {
    if id in h.tallies then h.tallies[id] else NO_TALLY
  }

  function Tallied(h: History, id: nat, t: Tally): History {
    h.(tallies := h.tallies[id := t])
  }

  function Began(h: History, id: nat): History {
    Tallied(h, id, TallyOf(h, id).(won := TallyOf(h, id).won + 1, latest := 0))
  }

  function Ran(h: History, id: nat): History {
    Tallied(h, id, TallyOf(h, id).(runs := TallyOf(h, id).runs + 1, latest := TallyOf(h, id).latest + 1))
  }

  /** A sweep ends the ownerships whose rows it takes. */
  function SweptBack(h: History, rows: Rows, before: int): History {
    h.(tallies := map id | id in h.tallies ::
         if id in rows && Stuck(rows[id], before) then h.tallies[id].(swept := h.tallies[id].swept + [h.tallies[id].latest], latest := 0)
         else h.tallies[id])
  }

  /** The steps in which a worker of the preflight pool moves. */
  predicate PreStep(step: Step) {
    step.PreList? || step.PreTry? || step.Check? || step.Decide?
  }

  /** The steps in which a worker of the admit pool moves. */
  predicate AdmitStep(step: Step) {
    step.AdmitList? || step.AdmitTry? || step.RunAdmitOne? || step.Wake? || step.Conclude? || step.Audit?
  }

  function Crashed(s: World): World {
    s.(proc := Process(false, false, false),
       pre := seq(|s.pre|, _ => PreIdle), adm := seq(|s.adm|, _ => AdmitIdle),
       hist := s.hist.(lost := s.hist.lost + AuditingIds(s.adm)))
  }

  /** Submitters, reviewers, the clock, and the process as a whole. */
  function AfterEnv(s: World, step: Step): World
    requires Enabled(s, step) && !PreStep(step) && !AdmitStep(step)
  {
    match step
    case Submit(id, url) => s.(rows := s.rows[id := Request(Pending, s.clock, url, None, None, None, None, 0)])
    case Approve(id) => Cas(s, id, NeedsReview, Approved, NO_FIELDS).(hist := s.hist.(approved := s.hist.approved + {id}))
    case Deny(id, from, reason) => Cas(s, id, from, Denied, NO_FIELDS.(denialReason := reason)).(hist := s.hist.(denied := s.hist.denied + {id}))
    case Tick(n) => s.(clock := s.clock + n)
    case Cancel => s.(proc := s.proc.(cancelled := true))
    case Crash => Crashed(s)
    case Boot => s.(proc := Process(true, false, false))
    case Sweep(before, dbOk) =>
      if dbOk && !s.proc.cancelled then
        s.(proc := s.proc.(swept := true), rows := Reclaimed(s.rows, before, s.clock), hist := SweptBack(s.hist, s.rows, before))
      else s.(proc := s.proc.(swept := true))
  }

  /** tryProcessOne of the preflight pool, at one candidate. */
  function PreTried(s: World, w: nat, dbOk: bool): World
    requires w < |s.pre| && s.pre[w].PreListed?
  {
    var ids := s.pre[w].ids;
    if ids == [] || s.proc.cancelled then SetPre(s, w, PreIdle)
    else if dbOk && TransitionError(s.rows, ids[0], Pending, Preflighting).Ok? then
      SetPre(Cas(s, ids[0], Pending, Preflighting, NO_FIELDS), w, Checking(ids[0]))
    else SetPre(s, w, PreListed(ids[1..]))
  }

  /** The verdict is written, or refused when the row has left preflighting. */
  function VerdictApplied(s: World, w: nat, dbOk: bool): World
    requires w < |s.pre| && s.pre[w].Deciding?
  {
    var id, v := s.pre[w].id, s.pre[w].verdict;
    var f := NO_FIELDS.(preflight := Some(v), denialReason := if v.next.Denied? then v.reason else None);
    if dbOk && TransitionError(s.rows, id, Preflighting, v.next).Ok? then
      SetPre(Cas(s, id, Preflighting, v.next, f), w, PreIdle)
    else SetPre(s, w, PreIdle)
  }

  function AfterPre(s: World, step: Step): World
    requires Enabled(s, step) && PreStep(step)
  {
    match step
    case PreList(w, ids) => SetPre(s, w, PreListed(ids))
    case PreTry(w, dbOk) => PreTried(s, w, dbOk)
    case Check(w, v) => SetPre(s, w, if ValidNext(v.next) then Deciding(s.pre[w].id, v) else PreIdle)
    case Decide(w, dbOk) => VerdictApplied(s, w, dbOk)
  }

  /** tryProcessOne of the admit pool, at one candidate. */
  function AdmitTried(s: World, w: nat, dbOk: bool): World
    requires w < |s.adm| && s.adm[w].AdmitListed?
  {
    var cands := s.adm[w].cands;
    if cands == [] || s.proc.cancelled then SetAdmit(s, w, AdmitIdle)
    else if dbOk && TransitionError(s.rows, cands[0].id, cands[0].state, Fetching).Ok? then
      SetAdmit(Cas(s, cands[0].id, cands[0].state, Fetching, NO_FIELDS), w, Owned(cands[0], [], Trying))
      .(hist := Began(s.hist, cands[0].id))
    else SetAdmit(s, w, AdmitListed(cands[1..]))
  }

  /** One run of admitOne; a Publish receipt is on record when it succeeds. */
  function Attempted(s: World, w: nat, a: Attempt, maxRetries: nat): World
    requires w < |s.adm| && s.adm[w].Owned?
  {
    var o := s.adm[w];
    var mode := if Decisive(a, |o.tries|, maxRetries) then Concluding else Waiting;
    var h := Ran(s.hist, o.snap.id);
    SetAdmit(s, w, o.(tries := o.tries + [a], mode := mode))
    .(hist := if a.Published? then h.(published := h.published + {(o.snap.id, a.commit)}) else h)
  }

  /** `succeed` or `fail`, up to the audit. */
  function Concluded(s: World, w: nat, dbOk: bool): World
    requires w < |s.adm| && s.adm[w].Owned?
  {
    var o := s.adm[w];
    if dbOk && o.tries != [] && TransitionError(s.rows, o.snap.id, Fetching, EndState(o.tries)).Ok? then
      var e := AdmitEnd(o.snap.id, o.tries);
      SetAdmit(Cas(s, e.id, Fetching, EndState(e.tries), EndFields(e.tries)), w, Auditing(e)).(hist := s.hist.(ended := s.hist.ended[e.id := e]))
    else SetAdmit(s, w, AdmitIdle)
  }

  function AfterAdmit(s: World, step: Step, maxRetries: nat): World
    requires Enabled(s, step) && AdmitStep(step)
  {
    match step
    case AdmitList(w, cands) => SetAdmit(s, w, AdmitListed(cands))
    case AdmitTry(w, dbOk) => AdmitTried(s, w, dbOk)
    case RunAdmitOne(w, a) => Attempted(s, w, a, maxRetries)
    case Wake(w, proceed) => SetAdmit(s, w, if proceed then s.adm[w].(mode := Trying) else AdmitIdle)
    case Conclude(w, dbOk) => Concluded(s, w, dbOk)
    case Audit(w) => SetAdmit(s, w, AdmitIdle).(hist := s.hist.(audits := s.hist.audits + [s.adm[w].end]))
  }

  function After(s: World, step: Step, maxRetries: nat): World
    requires Enabled(s, step)
  {
    if PreStep(step) then AfterPre(s, step)
    else if AdmitStep(step) then AfterAdmit(s, step, maxRetries)
    else AfterEnv(s, step)
  }

  function Start(rows: Rows, preWorkers: nat, admitWorkers: nat): World {
    World(rows, 0, Process(false, false, false), seq(preWorkers, _ => PreIdle), seq(admitWorkers, _ => AdmitIdle), History({}, {}, {}, map[], [], {}, map[]))
  }

  /** A run starts from an empty store with the process down. */
  ghost predicate Run(s: World, steps: seq<Step>, maxRetries: nat)
    decreases |steps|
  {
    steps == [] || (Enabled(s, steps[0]) && Run(After(s, steps[0], maxRetries), steps[1..], maxRetries))
  }

  ghost function Execute(s: World, steps: seq<Step>, maxRetries: nat): World
    requires Run(s, steps, maxRetries)
    decreases |steps|
  {
    if steps == [] then s else Execute(After(s, steps[0], maxRetries), steps[1..], maxRetries)
  }

  // ----- Invariant -----

  function Checks(p: PreWorker): Option<nat> {
    match p
    case Checking(id) => Some(id)
    case Deciding(id, _) => Some(id)
    case _ => None
  }

  function Admits(a: AdmitWorker): Option<nat> {
    if a.Owned? then Some(a.snap.id) else None
  }

  function Reports(a: AdmitWorker): Option<nat> {
    if a.Auditing? then Some(a.end.id) else None
  }

  /** At most one worker of each pool owns a request. */
  ghost predicate OneOwner(s: World) {
    && (forall v, w | 0 <= v < w < |s.pre| && Checks(s.pre[v]).Some? :: Checks(s.pre[v]) != Checks(s.pre[w]))
    && (forall v, w | 0 <= v < w < |s.adm| && Admits(s.adm[v]).Some? :: Admits(s.adm[v]) != Admits(s.adm[w]))
  }

  predicate InPreflight(s: World, id: nat) {
    id in s.rows && s.rows[id].state == if id in s.hist.denied then Denied else Preflighting
  }

  predicate InFetching(s: World, id: nat) {
    id in s.rows && s.rows[id].state.Fetching?
  }

  /** A preflight owner's row is in preflighting, unless a reviewer has denied the request in
      the meantime; an admit owner's row is in fetching. */
  ghost predicate OwnedRows(s: World) {
    && (forall w | 0 <= w < |s.pre| && Checks(s.pre[w]).Some? :: InPreflight(s, Checks(s.pre[w]).value))
    && (forall w | 0 <= w < |s.adm| && Admits(s.adm[w]).Some? :: InFetching(s, Admits(s.adm[w]).value))
    && (forall id | id in s.hist.denied :: id in s.rows && s.rows[id].state.Denied?)
  }

  predicate PastReview(st: RequestState) {
    st.AutoPass? || st.Approved? || st.Fetching? || st.Indexed? || st.Denied?
  }

  /** A remembered candidate still carries the row's own source URL and preflight verdict. */
  predicate SnapshotTrue(rows: Rows, c: Snapshot) {
    && c.id in rows
    && rows[c.id].sourceUrl == c.sourceUrl
    && rows[c.id].preflight == c.preflight
    && PastReview(rows[c.id].state)
    && (c.state.AutoPass? || c.state.Approved?)
  }

  predicate Remembers(a: AdmitWorker, c: Snapshot) {
    (a.Owned? && a.snap == c) || (a.AdmitListed? && c in a.cands)
  }

  ghost predicate SnapshotInv(s: World) {
    forall w, c | 0 <= w < |s.adm| && Remembers(s.adm[w], c) :: SnapshotTrue(s.rows, c)
  }

  predicate OwnedTries(o: AdmitWorker, maxRetries: nat) {
    o.Owned? ==>
      if o.mode.Concluding? then Decided(o.tries, maxRetries)
      else forall i | 0 <= i < |o.tries| :: !Decisive(o.tries[i], i, maxRetries)
  }

  predicate Receipted(published: set<(nat, Text)>, id: nat, tries: seq<Attempt>) {
    forall i | 0 <= i < |tries| && tries[i].Published? :: (id, tries[i].commit) in published
  }

  predicate EndTrue(s: World, e: AdmitEnd, maxRetries: nat) {
    Decided(e.tries, maxRetries) && Receipted(s.hist.published, e.id, e.tries)
  }

  /** Attempts are recorded as they were made, and every success among them has its receipt. */
  ghost predicate TriesInv(s: World, maxRetries: nat) {
    && (forall w | 0 <= w < |s.adm| :: OwnedTries(s.adm[w], maxRetries))
    && (forall w | 0 <= w < |s.adm| && s.adm[w].Owned? :: Receipted(s.hist.published, s.adm[w].snap.id, s.adm[w].tries))
    && (forall id | id in s.hist.ended :: s.hist.ended[id].id == id && EndTrue(s, s.hist.ended[id], maxRetries))
  }

  /** `succeed` stores the receipt's commit and the blob's integrity, when they are not empty. */
  predicate CommitWritten(r: Request, last: Attempt) {
    last.Published? ==>
      && (last.commit.Some? ==> r.committedSha == last.commit)
      && (last.integrity.Some? ==> r.fetchedSha == last.integrity)
  }

  /** What the row of request id says about its committed terminal admit transition. */
  predicate EndedRow(s: World, id: nat) {
    if id in s.hist.ended then
      && s.hist.ended[id].tries != []
      && id in s.rows
      && s.rows[id].state == EndState(s.hist.ended[id].tries)
      && s.rows[id].retryCount == |s.hist.ended[id].tries| - 1
      && CommitWritten(s.rows[id], s.hist.ended[id].tries[|s.hist.ended[id].tries| - 1])
    else
      id in s.rows ==> !s.rows[id].state.Indexed? && s.rows[id].retryCount == 0
  }

  ghost predicate EndedInv(s: World) {
    forall id :: EndedRow(s, id)
  }

  /** Where the audit of request id's end is: number of calls made, of workers about to make
      it, and whether a crash has taken it. */
  function Calls(audits: seq<AdmitEnd>, id: nat): nat {
    if audits == [] then 0
    else Calls(audits[..|audits| - 1], id) + if audits[|audits| - 1].id == id then 1 else 0
  }

  function AboutTo(adm: seq<AdmitWorker>, id: nat): nat {
    if adm == [] then 0
    else AboutTo(adm[..|adm| - 1], id) + if Reports(adm[|adm| - 1]) == Some(id) then 1 else 0
  }

  predicate Audited(s: World, id: nat) {
    Calls(s.hist.audits, id) + AboutTo(s.adm, id) + (if id in s.hist.lost then 1 else 0) == if id in s.hist.ended then 1 else 0
  }

  /** Each committed end is audited once, with a worker about to audit it, or lost to a crash. */
  ghost predicate AuditInv(s: World) {
    && (forall id :: Audited(s, id))
    && (forall e | e in s.hist.audits :: e.id in s.hist.ended && e == s.hist.ended[e.id])
    && (forall w | 0 <= w < |s.adm| && s.adm[w].Auditing? :: s.adm[w].end.id in s.hist.ended && s.adm[w].end == s.hist.ended[s.adm[w].end.id])
  }

  /** Before the sweep of a boot is over, no admit worker of that process has begun. */
  ghost predicate ProcessInv(s: World) {
    && (!s.proc.up ==> forall w | 0 <= w < |s.pre| :: s.pre[w].PreIdle?)
    && (!(s.proc.up && s.proc.swept) ==> forall w | 0 <= w < |s.adm| :: s.adm[w].AdmitIdle?)
  }

  ghost predicate Inv(s: World, maxRetries: nat) {
    && OneOwner(s)
    && OwnedRows(s)
    && SnapshotInv(s)
    && TriesInv(s, maxRetries)
    && EndedInv(s)
    && AuditInv(s)
    && ProcessInv(s)
  }

  // --- Ownership ---

  lemma PreTriedOwned(s: World, w: nat, dbOk: bool)
    requires OneOwner(s) && OwnedRows(s)
    requires w < |s.pre| && s.pre[w].PreListed?
    ensures OneOwner(PreTried(s, w, dbOk)) && OwnedRows(PreTried(s, w, dbOk))
  {
  }

  lemma VerdictOwned(s: World, w: nat, dbOk: bool)
    requires OneOwner(s) && OwnedRows(s)
    requires w < |s.pre| && s.pre[w].Deciding?
    ensures OneOwner(VerdictApplied(s, w, dbOk)) && OwnedRows(VerdictApplied(s, w, dbOk))
  {
    assert Checks(s.pre[w]).Some? && InPreflight(s, Checks(s.pre[w]).value);
  }

  lemma AdmitTriedOwned(s: World, w: nat, dbOk: bool)
    requires OneOwner(s) && OwnedRows(s)
    requires w < |s.adm| && s.adm[w].AdmitListed?
    requires forall c | c in s.adm[w].cands :: SnapshotTrue(s.rows, c)
    ensures OneOwner(AdmitTried(s, w, dbOk)) && OwnedRows(AdmitTried(s, w, dbOk))
  {
  }

  lemma ConcludedOwned(s: World, w: nat, dbOk: bool)
    requires OneOwner(s) && OwnedRows(s)
    requires w < |s.adm| && s.adm[w].Owned?
    ensures OneOwner(Concluded(s, w, dbOk)) && OwnedRows(Concluded(s, w, dbOk))
  {
    assert Admits(s.adm[w]).Some? && InFetching(s, Admits(s.adm[w]).value);
  }

  lemma OwnedEnv(s: World, step: Step)
    requires OneOwner(s) && OwnedRows(s) && ProcessInv(s)
    requires Enabled(s, step) && !PreStep(step) && !AdmitStep(step)
    ensures OneOwner(AfterEnv(s, step)) && OwnedRows(AfterEnv(s, step))
  {
  }

  lemma OwnedPre(s: World, step: Step)
    requires OneOwner(s) && OwnedRows(s)
    requires Enabled(s, step) && PreStep(step)
    ensures OneOwner(AfterPre(s, step)) && OwnedRows(AfterPre(s, step))
  {
    match step
    case PreList(_, _) =>
    case PreTry(w, dbOk) => PreTriedOwned(s, w, dbOk);
    case Check(_, _) =>
    case Decide(w, dbOk) => VerdictOwned(s, w, dbOk);
  }

  lemma OwnedAdmit(s: World, step: Step, maxRetries: nat)
    requires OneOwner(s) && OwnedRows(s) && SnapshotInv(s)
    requires Enabled(s, step) && AdmitStep(step)
    ensures OneOwner(AfterAdmit(s, step, maxRetries)) && OwnedRows(AfterAdmit(s, step, maxRetries))
  {
    match step
    case AdmitList(_, _) =>
    case AdmitTry(w, dbOk) =>
      CandidatesTrue(s, w);
      AdmitTriedOwned(s, w, dbOk);
    case RunAdmitOne(_, _) =>
    case Wake(_, _) =>
    case Conclude(w, dbOk) => ConcludedOwned(s, w, dbOk);
    case Audit(_) =>
  }

  lemma CandidatesTrue(s: World, w: nat)
    requires SnapshotInv(s) && w < |s.adm| && s.adm[w].AdmitListed?
    ensures forall c | c in s.adm[w].cands :: SnapshotTrue(s.rows, c)
  {
    forall c | c in s.adm[w].cands
      ensures SnapshotTrue(s.rows, c)
    {
      assert Remembers(s.adm[w], c);
    }
  }

  // --- Snapshots ---

  lemma SnapshotsEnv(s: World, step: Step)
    requires SnapshotInv(s) && ProcessInv(s)
    requires Enabled(s, step) && !PreStep(step) && !AdmitStep(step)
    ensures SnapshotInv(AfterEnv(s, step))
  {
    var s' := AfterEnv(s, step);
    forall w, c | 0 <= w < |s'.adm| && Remembers(s'.adm[w], c)
      ensures SnapshotTrue(s'.rows, c)
    {
      assert Remembers(s.adm[w], c) && SnapshotTrue(s.rows, c);
    }
  }

  lemma SnapshotsPre(s: World, step: Step)
    requires SnapshotInv(s)
    requires Enabled(s, step) && PreStep(step)
    ensures SnapshotInv(AfterPre(s, step))
  {
    var s' := AfterPre(s, step);
    forall w, c | 0 <= w < |s'.adm| && Remembers(s'.adm[w], c)
      ensures SnapshotTrue(s'.rows, c)
    {
      assert Remembers(s.adm[w], c) && SnapshotTrue(s.rows, c);
    }
  }

  lemma SnapshotsAdmit(s: World, step: Step, maxRetries: nat)
    requires SnapshotInv(s)
    requires Enabled(s, step) && AdmitStep(step)
    ensures SnapshotInv(AfterAdmit(s, step, maxRetries))
  {
    var s' := AfterAdmit(s, step, maxRetries);
    forall w, c | 0 <= w < |s'.adm| && Remembers(s'.adm[w], c)
      ensures SnapshotTrue(s'.rows, c)
    {
      assert (Remembers(s.adm[w], c) && SnapshotTrue(s.rows, c)) || Listable(s.rows, c);
    }
  }

  // --- Attempts ---

  lemma TriesOther(s: World, step: Step, maxRetries: nat)
    requires TriesInv(s, maxRetries)
    requires Enabled(s, step) && !AdmitStep(step)
    ensures TriesInv(After(s, step, maxRetries), maxRetries)
  {
  }

  lemma AttemptedTries(s: World, w: nat, a: Attempt, maxRetries: nat)
    requires TriesInv(s, maxRetries) && w < |s.adm| && s.adm[w].Owned? && s.adm[w].mode.Trying?
    ensures TriesInv(Attempted(s, w, a, maxRetries), maxRetries)
  {
    var s' := Attempted(s, w, a, maxRetries);
    forall v | 0 <= v < |s'.adm|
      ensures OwnedTries(s'.adm[v], maxRetries)
      ensures s'.adm[v].Owned? ==> Receipted(s'.hist.published, s'.adm[v].snap.id, s'.adm[v].tries)
    {
      assert OwnedTries(s.adm[v], maxRetries);
    }
  }

  lemma ConcludedTries(s: World, w: nat, dbOk: bool, maxRetries: nat)
    requires TriesInv(s, maxRetries) && w < |s.adm| && s.adm[w].Owned? && s.adm[w].mode.Concluding?
    ensures TriesInv(Concluded(s, w, dbOk), maxRetries)
  {
    assert OwnedTries(s.adm[w], maxRetries);
  }

  lemma TriesAdmit(s: World, step: Step, maxRetries: nat)
    requires TriesInv(s, maxRetries)
    requires Enabled(s, step) && AdmitStep(step)
    ensures TriesInv(AfterAdmit(s, step, maxRetries), maxRetries)
  {
    match step
    case AdmitList(_, _) =>
    case AdmitTry(_, _) =>
    case RunAdmitOne(w, a) => AttemptedTries(s, w, a, maxRetries);
    case Wake(w, _) => assert OwnedTries(s.adm[w], maxRetries);
    case Conclude(w, dbOk) => ConcludedTries(s, w, dbOk, maxRetries);
    case Audit(_) =>
  }

  // --- Committed ends ---

  lemma ConcludedEnded(s: World, w: nat, dbOk: bool, id: nat)
    requires EndedRow(s, id) && w < |s.adm| && s.adm[w].Owned?
    ensures EndedRow(Concluded(s, w, dbOk), id)
  {
  }

  lemma EndedEnv(s: World, step: Step, id: nat)
    requires EndedRow(s, id) && Enabled(s, step) && !PreStep(step) && !AdmitStep(step)
    ensures EndedRow(AfterEnv(s, step), id)
  {
  }

  lemma EndedPre(s: World, step: Step, id: nat)
    requires EndedRow(s, id) && Enabled(s, step) && PreStep(step)
    ensures EndedRow(AfterPre(s, step), id)
  {
  }

  lemma EndedAdmit(s: World, step: Step, maxRetries: nat, id: nat)
    requires EndedRow(s, id) && Enabled(s, step) && AdmitStep(step)
    ensures EndedRow(AfterAdmit(s, step, maxRetries), id)
  {
    match step
    case Conclude(w, dbOk) => ConcludedEnded(s, w, dbOk, id);
    case _ =>
  }

  lemma EndedKept(s: World, step: Step, maxRetries: nat)
    requires EndedInv(s) && Enabled(s, step)
    ensures EndedInv(After(s, step, maxRetries))
  {
    forall id
      ensures EndedRow(After(s, step, maxRetries), id)
    {
      assert EndedRow(s, id);
      if AdmitStep(step) {
        EndedAdmit(s, step, maxRetries, id);
      } else if PreStep(step) {
        EndedPre(s, step, id);
      } else {
        EndedEnv(s, step, id);
      }
    }
  }

  lemma ProcessKept(s: World, step: Step, maxRetries: nat)
    requires ProcessInv(s) && Enabled(s, step)
    ensures ProcessInv(After(s, step, maxRetries))
  {
  }

  // --- Audits ---

  lemma {:induction false} AboutToUpdate(adm: seq<AdmitWorker>, w: nat, a: AdmitWorker, id: nat)
    requires w < |adm|
    ensures AboutTo(adm[w := a], id) ==
            AboutTo(adm, id) - (if Reports(adm[w]) == Some(id) then 1 else 0) + if Reports(a) == Some(id) then 1 else 0
  {
    var n := |adm| - 1;
    if w == n {
      assert adm[w := a][..n] == adm[..n];
    } else {
      AboutToUpdate(adm[..n], w, a, id);
      assert adm[w := a][..n] == adm[..n][w := a];
    }
  }

  lemma {:induction false} AboutToIds(adm: seq<AdmitWorker>, id: nat)
    ensures AboutTo(adm, id) > 0 <==> id in AuditingIds(adm)
  {
    if adm != [] {
      var n := |adm| - 1;
      AboutToIds(adm[..n], id);
      assert forall a :: a in adm <==> a in adm[..n] || a == adm[n];
    }
  }

  lemma {:induction false} CallsIds(audits: seq<AdmitEnd>, id: nat)
    ensures Calls(audits, id) > 0 <==> exists e :: e in audits && e.id == id
  {
    if audits != [] {
      var n := |audits| - 1;
      CallsIds(audits[..n], id);
      assert forall e :: e in audits <==> e in audits[..n] || e == audits[n];
    }
  }

  lemma AuditedAdmit(s: World, step: Step, maxRetries: nat, id: nat)
    requires Audited(s, id) && EndedRow(s, id) && Enabled(s, step) && AdmitStep(step) && !step.Audit?
    ensures Audited(After(s, step, maxRetries), id)
  {
    var s' := After(s, step, maxRetries);
    assert s'.adm == s.adm[step.w := s'.adm[step.w]];
    AboutToUpdate(s.adm, step.w, s'.adm[step.w], id);
  }

  lemma AuditedAudit(s: World, step: Step, maxRetries: nat, id: nat)
    requires Audited(s, id) && EndedRow(s, id) && Enabled(s, step) && step.Audit?
    ensures Audited(After(s, step, maxRetries), id)
  {
    var s' := After(s, step, maxRetries);
    AboutToUpdate(s.adm, step.w, s'.adm[step.w], id);
    assert s'.hist.audits[..|s.hist.audits|] == s.hist.audits;
  }

  lemma AuditedKept(s: World, step: Step, maxRetries: nat, id: nat)
    requires Audited(s, id) && EndedRow(s, id) && Enabled(s, step)
    ensures Audited(After(s, step, maxRetries), id)
  {
    var s' := After(s, step, maxRetries);
    if step.Audit? {
      AuditedAudit(s, step, maxRetries, id);
    } else if AdmitStep(step) {
      AuditedAdmit(s, step, maxRetries, id);
    } else if step.Crash? {
      AboutToIds(s.adm, id);
      AboutToIds(s'.adm, id);
    }
  }

  /** A committed end is never replaced: its row has left fetching for good. */
  lemma EndStays(s: World, step: Step, maxRetries: nat, id: nat)
    requires EndedRow(s, id) && id in s.hist.ended && Enabled(s, step)
    ensures id in After(s, step, maxRetries).hist.ended && After(s, step, maxRetries).hist.ended[id] == s.hist.ended[id]
  {
  }

  lemma EndsStay(s: World, step: Step, maxRetries: nat)
    requires EndedInv(s) && Enabled(s, step)
    ensures forall id | id in s.hist.ended ::
              id in After(s, step, maxRetries).hist.ended && After(s, step, maxRetries).hist.ended[id] == s.hist.ended[id]
  {
    forall id | id in s.hist.ended
      ensures id in After(s, step, maxRetries).hist.ended && After(s, step, maxRetries).hist.ended[id] == s.hist.ended[id]
    {
      assert EndedRow(s, id);
      EndStays(s, step, maxRetries, id);
    }
  }

  lemma AuditsTrue(s: World, step: Step, maxRetries: nat)
    requires AuditInv(s) && EndedInv(s) && Enabled(s, step)
    ensures var s' := After(s, step, maxRetries);
            forall e | e in s'.hist.audits :: e.id in s'.hist.ended && e == s'.hist.ended[e.id]
  {
    EndsStay(s, step, maxRetries);
  }

  lemma AuditingTrue(s: World, step: Step, maxRetries: nat)
    requires AuditInv(s) && EndedInv(s) && Enabled(s, step)
    ensures var s' := After(s, step, maxRetries);
            forall w | 0 <= w < |s'.adm| && s'.adm[w].Auditing? ::
              s'.adm[w].end.id in s'.hist.ended && s'.adm[w].end == s'.hist.ended[s'.adm[w].end.id]
  {
    EndsStay(s, step, maxRetries);
  }

  lemma AuditsKept(s: World, step: Step, maxRetries: nat)
    requires AuditInv(s) && EndedInv(s) && Enabled(s, step)
    ensures AuditInv(After(s, step, maxRetries))
  {
    forall id
      ensures Audited(After(s, step, maxRetries), id)
    {
      assert EndedRow(s, id) && Audited(s, id);
      AuditedKept(s, step, maxRetries, id);
    }
    AuditsTrue(s, step, maxRetries);
    AuditingTrue(s, step, maxRetries);
  }

  lemma StepKeeps(s: World, step: Step, maxRetries: nat)
    requires Inv(s, maxRetries) && Enabled(s, step)
    ensures Inv(After(s, step, maxRetries), maxRetries)
  {
    ProcessKept(s, step, maxRetries);
    EndedKept(s, step, maxRetries);
    AuditsKept(s, step, maxRetries);
    if AdmitStep(step) {
      OwnedAdmit(s, step, maxRetries);
      SnapshotsAdmit(s, step, maxRetries);
      TriesAdmit(s, step, maxRetries);
    } else {
      TriesOther(s, step, maxRetries);
      if PreStep(step) {
        OwnedPre(s, step);
        SnapshotsPre(s, step);
      } else {
        OwnedEnv(s, step);
        SnapshotsEnv(s, step);
      }
    }
  }

  lemma StartInv(preWorkers: nat, admitWorkers: nat, maxRetries: nat)
    ensures Inv(Start(map[], preWorkers, admitWorkers), maxRetries)
  {
    var s := Start(map[], preWorkers, admitWorkers);
    forall id
      ensures Audited(s, id)
    {
      AboutToIds(s.adm, id);
    }
  }

  lemma {:induction false} RunKeeps(s: World, steps: seq<Step>, maxRetries: nat)
    requires Inv(s, maxRetries) && Run(s, steps, maxRetries)
    ensures Inv(Execute(s, steps, maxRetries), maxRetries)
    decreases |steps|
  {
    if steps != [] {
      StepKeeps(s, steps[0], maxRetries);
      RunKeeps(After(s, steps[0], maxRetries), steps[1..], maxRetries);
    }
  }

  /** A state that some run of the pipeline reaches, with any pools, interleaving, stale
      listings, store failures, cancellations, crashes and reboots. */
  ghost predicate Reached(s: World, maxRetries: nat) {
    exists steps, p: nat, a: nat :: Run(Start(map[], p, a), steps, maxRetries) && s == Execute(Start(map[], p, a), steps, maxRetries)
  }

  lemma ReachedInv(s: World, maxRetries: nat)
    requires Reached(s, maxRetries)
    ensures Inv(s, maxRetries)
  {
    var steps, p: nat, a: nat :| Run(Start(map[], p, a), steps, maxRetries) && s == Execute(Start(map[], p, a), steps, maxRetries);
    StartInv(p, a, maxRetries);
    RunKeeps(Start(map[], p, a), steps, maxRetries);
  }

  lemma {:induction false} RunOneMore(s: World, steps: seq<Step>, step: Step, maxRetries: nat)
    requires Run(s, steps, maxRetries) && Enabled(Execute(s, steps, maxRetries), step)
    ensures Run(s, steps + [step], maxRetries)
    ensures Execute(s, steps + [step], maxRetries) == After(Execute(s, steps, maxRetries), step, maxRetries)
    decreases |steps|
  {
    var all := steps + [step];
    if steps == [] {
      assert all == [step] && all[1..] == [];
    } else {
      RunOneMore(After(s, steps[0], maxRetries), steps[1..], step, maxRetries);
      assert all[1..] == steps[1..] + [step];
    }
  }

  lemma ReachedNext(s: World, step: Step, maxRetries: nat)
    requires Reached(s, maxRetries) && Enabled(s, step)
    ensures Reached(After(s, step, maxRetries), maxRetries)
  {
    var steps, p: nat, a: nat :| Run(Start(map[], p, a), steps, maxRetries) && s == Execute(Start(map[], p, a), steps, maxRetries);
    RunOneMore(Start(map[], p, a), steps, step, maxRetries);
  }

  lemma {:induction false} ReachedLater(s: World, steps: seq<Step>, maxRetries: nat)
    requires Reached(s, maxRetries) && Run(s, steps, maxRetries)
    ensures Reached(Execute(s, steps, maxRetries), maxRetries)
    decreases |steps|
  {
    if steps != [] {
      ReachedNext(s, steps[0], maxRetries);
      ReachedLater(After(s, steps[0], maxRetries), steps[1..], maxRetries);
    }
  }

  /** A request that passes preflight, is owned and gets its receipt does become indexed: such a
      state is reached. */
  lemma SomeRequestIsIndexed(maxRetries: nat, url: Text, commit: Text, integrity: Text) returns (s: World)
    ensures Reached(s, maxRetries) && 0 in s.rows && s.rows[0].state.Indexed? && (commit.Some? ==> s.rows[0].committedSha == commit)
    ensures |s.adm| == 1 && s.adm[0].Auditing?
  {
    var tried := SomeAttemptSucceeds(maxRetries, url, commit, integrity);
    s := Concluded(tried, 0, true);
    ReachedNext(tried, Conclude(0, true), maxRetries);
    assert s == After(tried, Conclude(0, true), maxRetries);
  }

  lemma SomeAttemptSucceeds(maxRetries: nat, url: Text, commit: Text, integrity: Text) returns (s: World)
    ensures Reached(s, maxRetries) && s.proc == Process(true, true, false)
    ensures |s.adm| == 1 && s.adm[0].Owned? && s.adm[0].snap.id == 0 && s.adm[0].mode.Concluding?
    ensures s.adm[0].tries == [Published(commit, integrity)]
    ensures 0 in s.rows && s.rows[0].state.Fetching?
  {
    var owned := SomeRequestIsOwned(maxRetries, url);
    s := Attempted(owned, 0, Published(commit, integrity), maxRetries);
    ReachedNext(owned, RunAdmitOne(0, Published(commit, integrity)), maxRetries);
    assert s == After(owned, RunAdmitOne(0, Published(commit, integrity)), maxRetries);
  }

  lemma SomeRequestIsOwned(maxRetries: nat, url: Text) returns (s: World)
    ensures Reached(s, maxRetries) && s.proc == Process(true, true, false)
    ensures |s.adm| == 1 && s.adm[0].Owned? && s.adm[0].snap.id == 0 && s.adm[0].tries == [] && s.adm[0].mode.Trying?
    ensures 0 in s.rows && s.rows[0].state.Fetching?
    ensures TallyOf(s.hist, 0) == Tally(0, 1, [], 0)
  {
    var passed := SomeRequestPasses(maxRetries, url);
    var c := Snapshot(0, AutoPass, passed.rows[0].sourceUrl, passed.rows[0].preflight);
    var listed := SetAdmit(passed, 0, AdmitListed([c]));
    ReachedNext(passed, AdmitList(0, [c]), maxRetries);
    assert listed == After(passed, AdmitList(0, [c]), maxRetries);
    s := AdmitTried(listed, 0, true);
    ReachedNext(listed, AdmitTry(0, true), maxRetries);
    assert s == After(listed, AdmitTry(0, true), maxRetries);
  }

  lemma SomeRequestPasses(maxRetries: nat, url: Text) returns (s: World)
    ensures Reached(s, maxRetries) && s.proc == Process(true, true, false)
    ensures |s.adm| == 1 && s.adm[0].AdmitIdle?
    ensures 0 in s.rows && s.rows[0].state.AutoPass? && s.hist.tallies == map[]
  {
    var checking := SomeRequestIsChecked(maxRetries, url);
    var v := Verdict(AutoPass, None, None);
    var deciding := SetPre(checking, 0, Deciding(0, v));
    ReachedNext(checking, Check(0, v), maxRetries);
    assert deciding == After(checking, Check(0, v), maxRetries);
    s := VerdictApplied(deciding, 0, true);
    ReachedNext(deciding, Decide(0, true), maxRetries);
    assert s == After(deciding, Decide(0, true), maxRetries);
  }

  lemma SomeRequestIsChecked(maxRetries: nat, url: Text) returns (s: World)
    ensures Reached(s, maxRetries) && s.proc == Process(true, true, false)
    ensures |s.pre| == 1 && s.pre[0] == Checking(0) && |s.adm| == 1 && s.adm[0].AdmitIdle?
    ensures 0 in s.rows && s.rows[0].state.Preflighting? && s.hist.tallies == map[]
  {
    var swept := SomeRequestWaits(maxRetries, url);
    var listed := SetPre(swept, 0, PreListed([0]));
    ReachedNext(swept, PreList(0, [0]), maxRetries);
    assert listed == After(swept, PreList(0, [0]), maxRetries);
    s := PreTried(listed, 0, true);
    ReachedNext(listed, PreTry(0, true), maxRetries);
    assert s == After(listed, PreTry(0, true), maxRetries);
  }

  lemma SomeRequestWaits(maxRetries: nat, url: Text) returns (s: World)
    ensures Reached(s, maxRetries) && s.proc == Process(true, true, false)
    ensures |s.pre| == 1 && s.pre[0] == PreIdle && |s.adm| == 1 && s.adm[0].AdmitIdle?
    ensures 0 in s.rows && s.rows[0].state.Pending? && s.hist.tallies == map[]
  {
    var submitted := SomeRequestComes(maxRetries, url);
    var up := AfterEnv(submitted, Boot);
    ReachedNext(submitted, Boot, maxRetries);
    s := AfterEnv(up, Sweep(0, false));
    ReachedNext(up, Sweep(0, false), maxRetries);
  }

  lemma SomeRequestComes(maxRetries: nat, url: Text) returns (s: World)
    ensures Reached(s, maxRetries) && !s.proc.up
    ensures |s.pre| == 1 && s.pre[0] == PreIdle && |s.adm| == 1 && s.adm[0].AdmitIdle?
    ensures 0 in s.rows && s.rows[0].state.Pending? && s.hist.tallies == map[]
  {
    var start := Start(map[], 1, 1);
    assert Run(start, [], maxRetries) && Execute(start, [], maxRetries) == start;
    s := AfterEnv(start, Submit(0, url));
    ReachedNext(start, Submit(0, url), maxRetries);
  }

  // ----- Main results -----

  /** At most one live worker owns a request, and it works on what the row says: the request is
      in fetching, with the source URL and the preflight verdict of the listing it came from,
      however stale that listing is. */
  lemma AdmitOwnership(s: World, maxRetries: nat, v: nat, w: nat)
    requires Reached(s, maxRetries) && v < |s.adm| && w < |s.adm| && s.adm[v].Owned? && s.adm[w].Owned?
    ensures s.adm[v].snap.id == s.adm[w].snap.id <==> v == w
    ensures var c := s.adm[v].snap;
            && c.id in s.rows
            && s.rows[c.id].state.Fetching?
            && s.rows[c.id].sourceUrl == c.sourceUrl
            && s.rows[c.id].preflight == c.preflight
    ensures s.proc.up && s.proc.swept
  {
    ReachedInv(s, maxRetries);
    assert Admits(s.adm[v]) == Some(s.adm[v].snap.id) && Admits(s.adm[w]) == Some(s.adm[w].snap.id);
    assert Remembers(s.adm[v], s.adm[v].snap) && SnapshotTrue(s.rows, s.adm[v].snap);
    assert InFetching(s, Admits(s.adm[v]).value);
  }

  predicate RowMoved(s: World, s': World, id: nat) {
    || (id in s.rows) != (id in s'.rows)
    || (id in s.rows && id in s'.rows && s.rows[id] != s'.rows[id])
  }

  predicate CandidatesPassed(s: World, step: Step)
    requires Enabled(s, step)
  {
    step.AdmitTry? ==>
      forall i | 0 <= i < |s.adm[step.w].cands| :: s.adm[step.w].cands[i].state.AutoPass? || s.adm[step.w].cands[i].state.Approved?
  }

  lemma TriesPassed(s: World, step: Step)
    requires SnapshotInv(s) && Enabled(s, step)
    ensures CandidatesPassed(s, step)
  {
    if step.AdmitTry? {
      CandidatesTrue(s, step.w);
      var cands := s.adm[step.w].cands;
      assert forall i | 0 <= i < |cands| :: cands[i] in cands;
    }
  }

  /** The row of an owned request leaves fetching only by its owner's own conclusion. */
  lemma OnlyTheOwnerConcludes(s: World, step: Step, maxRetries: nat, w: nat)
    requires Reached(s, maxRetries) && Enabled(s, step) && w < |s.adm| && s.adm[w].Owned?
    requires RowMoved(s, After(s, step, maxRetries), s.adm[w].snap.id)
    ensures step.Conclude? && step.w == w
    ensures Reports(After(s, step, maxRetries).adm[w]) == Some(s.adm[w].snap.id)
  {
    ReachedInv(s, maxRetries);
    assert Admits(s.adm[w]).Some? && InFetching(s, Admits(s.adm[w]).value);
    TriesPassed(s, step);
    OnlyOwner(s, step, maxRetries, w);
  }

  lemma OnlyOwner(s: World, step: Step, maxRetries: nat, w: nat)
    requires OneOwner(s) && ProcessInv(s) && Enabled(s, step) && w < |s.adm| && s.adm[w].Owned?
    requires InFetching(s, s.adm[w].snap.id) && RowMoved(s, After(s, step, maxRetries), s.adm[w].snap.id)
    requires CandidatesPassed(s, step)
    requires forall v | 0 <= v < |s.pre| && Checks(s.pre[v]).Some? :: InPreflight(s, Checks(s.pre[v]).value)
    ensures step.Conclude? && step.w == w
    ensures Reports(After(s, step, maxRetries).adm[w]) == Some(s.adm[w].snap.id)
  {
    assert Admits(s.adm[w]) == Some(s.adm[w].snap.id);
  }

  /** The preflight half.  A reviewer may deny a request while it is being checked, so the
      owner's row is in preflighting exactly when no reviewer has done so; otherwise it is denied
      and the owner's verdict will be refused. */
  lemma PreflightOwnership(s: World, maxRetries: nat, v: nat, w: nat)
    requires Reached(s, maxRetries) && v < |s.pre| && w < |s.pre| && Checks(s.pre[v]).Some? && Checks(s.pre[w]).Some?
    ensures Checks(s.pre[v]) == Checks(s.pre[w]) <==> v == w
    ensures var id := Checks(s.pre[v]).value;
            && id in s.rows
            && (s.rows[id].state.Preflighting? <==> id !in s.hist.denied)
            && (id in s.hist.denied ==> s.rows[id].state.Denied?)
            && forall to :: TransitionError(s.rows, id, Preflighting, to).Ok? ==> id !in s.hist.denied
  {
    ReachedInv(s, maxRetries);
  }

  lemma OnlyOwnerOrReviewerMoves(s: World, step: Step, maxRetries: nat, w: nat)
    requires Reached(s, maxRetries) && Enabled(s, step) && w < |s.pre| && Checks(s.pre[w]).Some?
    requires RowMoved(s, After(s, step, maxRetries), Checks(s.pre[w]).value)
    ensures (step.Decide? && step.w == w) || (step.Deny? && step.id == Checks(s.pre[w]).value && step.from.Preflighting?)
  {
    ReachedInv(s, maxRetries);
    TriesPassed(s, step);
    OnlyOwnerOrReviewer(s, step, maxRetries, w);
  }

  lemma OnlyOwnerOrReviewer(s: World, step: Step, maxRetries: nat, w: nat)
    requires OneOwner(s) && Enabled(s, step) && w < |s.pre| && Checks(s.pre[w]).Some?
    requires InPreflight(s, Checks(s.pre[w]).value) && RowMoved(s, After(s, step, maxRetries), Checks(s.pre[w]).value)
    requires CandidatesPassed(s, step)
    ensures (step.Decide? && step.w == w) || (step.Deny? && step.id == Checks(s.pre[w]).value && step.from.Preflighting?)
  {
  }

  /** The boot sweep never takes a row from a live worker: in the process that sweeps, every
      admit worker is still idle. */
  lemma SweepTakesNoOwned(s: World, maxRetries: nat, before: int, dbOk: bool)
    requires Reached(s, maxRetries) && Enabled(s, Sweep(before, dbOk))
    ensures forall w | 0 <= w < |s.adm| :: s.adm[w].AdmitIdle?
  {
    ReachedInv(s, maxRetries);
  }

  /** A request is indexed only by an ownership whose last attempt got a Publish receipt; the
      row then carries that receipt's commit.  The ownership made at most maxRetries + 1
      attempts, all but the last failed transiently, and the row counts the retries. */
  lemma IndexedMeansPublished(s: World, maxRetries: nat, id: nat)
    requires Reached(s, maxRetries) && id in s.rows && s.rows[id].state.Indexed?
    ensures id in s.hist.ended
    ensures var tries := s.hist.ended[id].tries;
            && 0 < |tries| <= maxRetries + 1
            && tries[|tries| - 1].Published?
            && (id, tries[|tries| - 1].commit) in s.hist.published
            && CommitWritten(s.rows[id], tries[|tries| - 1])
            && (forall i | 0 <= i < |tries| - 1 :: IsTransient(tries[i]))
            && s.rows[id].retryCount == |tries| - 1
  {
    ReachedInv(s, maxRetries);
    assert EndedRow(s, id);
    AttemptsBounded(s.hist.ended[id].tries, maxRetries);
  }

  /** A denial by the admit pool needs a terminal error or all maxRetries + 1 attempts. */
  lemma DeniedMeansExhausted(s: World, maxRetries: nat, id: nat)
    requires Reached(s, maxRetries) && id in s.hist.ended && id in s.rows && s.rows[id].state.Denied?
    ensures var tries := s.hist.ended[id].tries;
            && 0 < |tries| <= maxRetries + 1
            && tries[|tries| - 1].Failed?
            && (tries[|tries| - 1].transient ==> |tries| == maxRetries + 1)
            && s.rows[id].retryCount == |tries| - 1
  {
    ReachedInv(s, maxRetries);
    assert EndedRow(s, id);
    AttemptsBounded(s.hist.ended[id].tries, maxRetries);
  }

  /** Audit calls: never two for one request, only for a committed end and with its contents;
      and exactly one once its worker is past the call, unless a crash fell between the
      commit and the call.  Cancellation does not matter. */
  lemma AuditedExactlyOnce(s: World, maxRetries: nat, id: nat)
    requires Reached(s, maxRetries)
    ensures Calls(s.hist.audits, id) <= 1
    ensures Calls(s.hist.audits, id) == 1 <==> id in s.hist.ended && id !in s.hist.lost && id !in AuditingIds(s.adm)
    ensures forall e | e in s.hist.audits && e.id == id :: id in s.hist.ended && e == s.hist.ended[id]
  {
    ReachedInv(s, maxRetries);
    assert Audited(s, id);
    AboutToIds(s.adm, id);
  }

  lemma OrphanKept(s: World, step: Step, maxRetries: nat, id: nat)
    requires Enabled(s, step) && Orphan(s, id) && !(step.Deny? && step.id == id)
    ensures Orphan(After(s, step, maxRetries), id)
  {
    if PreStep(step) {
      assert Checks(s.pre[step.w]) != Some(id);
    }
  }

  /** A row in preflighting that no live worker owns. */
  ghost predicate Orphan(s: World, id: nat) {
    && id in s.rows && s.rows[id].state.Preflighting?
    && forall w | 0 <= w < |s.pre| :: Checks(s.pre[w]) != Some(id)
  }

  /** The other side of the missing preflight sweep: a row left in preflighting without an owner
      (a crash, an illegal verdict, a failed verdict write) is never picked up again, in any run;
      only a reviewer's denial can move it. */
  lemma {:induction false} OrphanStays(s: World, steps: seq<Step>, maxRetries: nat, id: nat)
    requires Run(s, steps, maxRetries) && Orphan(s, id)
    requires forall step | step in steps :: !(step.Deny? && step.id == id)
    ensures Orphan(Execute(s, steps, maxRetries), id)
    decreases |steps|
  {
    if steps != [] {
      OrphanKept(s, steps[0], maxRetries, id);
      OrphanStays(After(s, steps[0], maxRetries), steps[1..], maxRetries, id);
    }
  }

  /** A crash during a check does leave such a row behind. */
  lemma SomeOrphan(maxRetries: nat, url: Text) returns (s: World)
    ensures Reached(s, maxRetries) && Orphan(s, 0)
  {
    var checking := SomeRequestIsChecked(maxRetries, url);
    s := Crashed(checking);
    ReachedNext(checking, Crash, maxRetries);
    assert s == After(checking, Crash, maxRetries);
  }

  /** And a reviewer can deny a request while its preflight worker is checking it. */
  lemma SomeOwnedIsDenied(maxRetries: nat, url: Text, reason: Text) returns (s: World)
    ensures Reached(s, maxRetries) && |s.pre| == 1 && Checks(s.pre[0]) == Some(0)
    ensures 0 in s.rows && s.rows[0].state.Denied? && 0 in s.hist.denied
  {
    var checking := SomeRequestIsChecked(maxRetries, url);
    s := AfterEnv(checking, Deny(0, Preflighting, reason));
    ReachedNext(checking, Deny(0, Preflighting, reason), maxRetries);
    assert s == After(checking, Deny(0, Preflighting, reason), maxRetries);
  }
}
