/** The commit watcher (internal/forgewatch/watcher.go): a persisted cursor and ETag, a forge, a
    store and a callback that may all fail, and an adaptive poll interval.

    The commits of the watched branch are numbered 1, 2, ... from its oldest; 0 stands for the
    empty SHA and the empty ETag.  An ETag n > 0 names the state of the branch whose newest commit
    is n. */
module ForgeWatch {

  datatype State = State(lastSHA: nat, lastETag: nat, lastPolledAt: int)

  const COLD_START := State(0, 0, 0)

  datatype Reply = Failed | NotModified(etag: nat) | Listed(commits: seq<nat>, etag: nat)

  // ----- Durations: 64-bit nanoseconds -----

  const TWO_62: int := 0x4000_0000_0000_0000
  const SECOND: int := 1_000_000_000

  function Wrap(n: int): (w: int)
    ensures -2 * TWO_62 <= w < 2 * TWO_62
    ensures -2 * TWO_62 <= n < 2 * TWO_62 ==> w == n
  {
    (n + 2 * TWO_62) % (4 * TWO_62) - 2 * TWO_62
  }

  function Min(a: int, b: int): int {
    if a <= b then a else b
  }

  function Doubled(d: int, max: int): int {
    Min(Wrap(2 * d), max)
  }

  datatype Config = Config(interval: int, maxInterval: int)

  /** What New makes of the configured durations. */
  function Normalised(c: Config): (n: Config)
    ensures n.interval != 0 && n.interval <= n.maxInterval
    ensures c.interval != 0 && c.interval <= c.maxInterval != 0 ==> n == c
  {
    var interval := if c.interval == 0 then 60 * SECOND else c.interval;
    var max := if c.maxInterval == 0 then Wrap(5 * interval) else c.maxInterval;
    Config(interval, if max < interval then interval else max)
  }

  // ----- One poll -----

  /** How the world answers one poll.  A save that reports an error may or may not have been
      written; `saves` says whether it was. */
  datatype Env = Env(loads: bool, reply: Reply, indexes: bool, saves: bool, errs: bool, now: int)

  class StateStore {
    var saved: State

    constructor ()
      ensures saved == COLD_START
    {
      saved := COLD_START;
    }

    method Load(works: bool) returns (s: State, ok: bool)
      ensures ok == works && s == if works then saved else COLD_START
    {
      s, ok := if works then saved else COLD_START, works;
    }

    method Save(s: State, env: Env) returns (ok: bool)
      modifies this
      ensures ok == (env.saves && !env.errs) && saved == if env.saves then s else old(saved)
    {
      if env.saves {
        saved := s;
      }
      ok := env.saves && !env.errs;
    }
  }

  /** OnCommit: the commits of every batch it returned without an error for. */
  class Indexer {
    var accepted: set<nat>

    constructor ()
      ensures accepted == {}
    {
      accepted := {};
    }

    method OnCommit(commits: seq<nat>, works: bool) returns (ok: bool)
      modifies this
      ensures ok == works && accepted == old(accepted) + if works then (set c | c in commits) else {}
    {
      if works {
        accepted := accepted + set c | c in commits;
      }
      ok := works;
    }
  }

  datatype World = World(state: State, accepted: set<nat>, interval: int)

  /** Nothing new: back off and keep the cursor. */
  function Idled(cfg: Config, w: World, etag: nat, env: Env): World {
    w.(interval := Doubled(w.interval, cfg.maxInterval),
       state := if env.saves then w.state.(lastETag := etag, lastPolledAt := env.now) else w.state)
  }

  function Polled(cfg: Config, w: World, env: Env): World {
    if !env.loads then w
    else match env.reply
      case Failed => w
      case NotModified(etag) => Idled(cfg, w, etag, env)
      case Listed(commits, etag) =>
        if commits == [] then Idled(cfg, w, etag, env)
        else if !env.indexes then
          w.(interval := Doubled(cfg.interval, cfg.maxInterval),
             state := if env.saves then w.state.(lastPolledAt := env.now) else w.state)
        else World(if env.saves then State(commits[0], etag, env.now) else w.state,
                   w.accepted + (set c | c in commits), cfg.interval)
  }

  /** What one poll does, by what it gets.  Without an answer, nothing.  With nothing new, the wait doubles
      and the answer's ETag is kept.  New commits that the callback refuses leave the cursor where it was
      and double the base; those it accepts move the cursor to the first one listed, with the answer's
      ETag, and the wait back to the base.  What is not saved is not kept. */
  lemma PollExact(cfg: Config, w: World, env: Env)
    ensures var t := Polled(cfg, w, env);
            && (!env.loads || env.reply == Failed ==> t == w)
            && (env.loads && (env.reply.NotModified? || (env.reply.Listed? && env.reply.commits == [])) ==>
                  && t.accepted == w.accepted && t.interval == Min(Wrap(w.interval + w.interval), cfg.maxInterval)
                  && t.state.lastSHA == w.state.lastSHA
                  && t.state.lastETag == (if env.saves then env.reply.etag else w.state.lastETag)
                  && t.state.lastPolledAt == (if env.saves then env.now else w.state.lastPolledAt))
            && (env.loads && env.reply.Listed? && env.reply.commits != [] && !env.indexes ==>
                  && t.accepted == w.accepted && t.interval == Min(Wrap(cfg.interval + cfg.interval), cfg.maxInterval)
                  && t.state.lastSHA == w.state.lastSHA && t.state.lastETag == w.state.lastETag
                  && t.state.lastPolledAt == (if env.saves then env.now else w.state.lastPolledAt))
            && (env.loads && env.reply.Listed? && env.reply.commits != [] && env.indexes ==>
                  && (forall c :: c in t.accepted <==> c in w.accepted || c in env.reply.commits) && t.interval == cfg.interval
                  && (env.saves ==> t.state.lastSHA == env.reply.commits[0] && t.state.lastETag == env.reply.etag && t.state.lastPolledAt == env.now)
                  && (!env.saves ==> t.state == w.state))
  {
  }

  /** The defaults: a minute, and five times the interval. */
  lemma DefaultsExact(c: Config)
    ensures var n := Normalised(c);
            && n.interval == (if c.interval == 0 then 60_000_000_000 else c.interval)
            && (c.maxInterval == 0 && 0 < n.interval < 0x1000_0000_0000_0000 ==> n.maxInterval == 5 * n.interval)
            && (c.maxInterval != 0 && c.maxInterval < n.interval ==> n.maxInterval == n.interval)
            && (c.maxInterval >= n.interval && c.maxInterval != 0 ==> n.maxInterval == c.maxInterval)
  {
  }

  class Watcher {
    const cfg: Config
    const store: StateStore
    const indexer: Indexer
    var interval: int

    constructor (c: Config, store: StateStore, indexer: Indexer)
      ensures cfg == Normalised(c) && this.store == store && this.indexer == indexer
      ensures interval == cfg.interval
    {
      cfg, this.store, this.indexer := Normalised(c), store, indexer;
      interval := Normalised(c).interval;
    }

    ghost function Now(): World
      reads this, store, indexer
    {
      World(store.saved, indexer.accepted, interval)
    }

    method PollOnce(env: Env) returns (ok: bool)
      modifies this, store, indexer
      ensures Now() == Polled(cfg, old(Now()), env)
      ensures ok <==> env.loads && !env.reply.Failed? && ((env.saves && !env.errs) || (env.reply.Listed? && env.reply.commits != [] && !env.indexes))
    {
      var state, loaded := store.Load(env.loads);
      if !loaded {
        return false;
      }
      match env.reply
      case Failed =>
        return false;
      case NotModified(etag) =>
        ApplyBackoff();
        ok := store.Save(state.(lastETag := etag, lastPolledAt := env.now), env);
      case Listed(commits, etag) =>
        if |commits| == 0 {
          ApplyBackoff();
          ok := store.Save(state.(lastETag := etag, lastPolledAt := env.now), env);
          return;
        }
        interval := cfg.interval;
        var accepted := indexer.OnCommit(commits, env.indexes);
        if !accepted {
          ApplyBackoff();
          var _ := store.Save(state.(lastPolledAt := env.now), env);
          return true;
        }
        ok := store.Save(state.(lastSHA := commits[0], lastETag := etag, lastPolledAt := env.now), env);
    }

    method ApplyBackoff()
      modifies `interval
      ensures interval == Doubled(old(interval), cfg.maxInterval)
    {
      interval := Min(Wrap(interval * 2), cfg.maxInterval);
    }
  }

  // ----- The forge -----

  /** The commits after `from` up to head, newest first. */
  function NewestFirst(from: nat, head: nat): (s: seq<nat>)
    requires from <= head
    ensures |s| == head - from
    ensures forall i | 0 <= i < |s| :: s[i] == head - i
  {
    seq(head - from, i requires 0 <= i < head - from => head - i)
  }

  lemma NewestFirstHolds(from: nat, head: nat, c: nat)
    requires from <= head
    ensures c in NewestFirst(from, head) <==> from < c <= head
  {
    if from < c <= head {
      assert NewestFirst(from, head)[head - c] == c;
    }
  }

  /** What the watcher may expect of an answer while the newest commit is head.  "Not modified" is
      said only when the ETag sent, or the SHA sent, is that of head.  A listing is everything after
      the SHA sent; without one, it is a baseline that holds at least the newest commit.  The ETag
      returned is head's, or the one that was sent. */
  ghost predicate Honest(head: nat, s: State, reply: Reply) {
    match reply
    case Failed => true
    case NotModified(etag) => (s.lastETag == head || s.lastSHA == head) && (etag == s.lastETag || etag == head)
    case Listed(commits, etag) => IsListing(head, s.lastSHA, commits) && (etag == s.lastETag || etag == head)
  }

  ghost predicate IsListing(head: nat, since: nat, commits: seq<nat>) {
    exists from: nat :: from <= head && (since > 0 ==> from == since) && (head > 0 && since == 0 ==> from < head)
      && commits == NewestFirst(from, head)
  }

  // ----- Runs -----

  /** A poll during which the newest commit is `head`, or a start of the process.  A crash during a
      poll is a poll whose save is not written, and then a start. */
  datatype Event = Poll(head: nat, env: Env) | Start

  /** `base` is the commit before the oldest of the batch that ended the cold start. */
  datatype Run = Run(world: World, head: nat, base: nat)

  function Began(cfg: Config): Run {
    Run(World(COLD_START, {}, cfg.interval), 0, 0)
  }

  function After(cfg: Config, r: Run, e: Event): Run {
    match e
    case Start => r.(world := r.world.(interval := cfg.interval))
    case Poll(head, env) =>
      var w := Polled(cfg, r.world, env);
      Run(w, head, if r.world.state.lastSHA == 0 && w.state.lastSHA > 0 then Oldest(env.reply) else r.base)
  }

  function Oldest(r: Reply): nat {
    if r.Listed? && r.commits != [] && r.commits[|r.commits| - 1] > 0 then r.commits[|r.commits| - 1] - 1 else 0
  }

  /** The branch only grows, and the forge is honest about it. */
  ghost predicate Possible(r: Run, e: Event) {
    e.Poll? ==> r.head <= e.head && Honest(e.head, r.world.state, e.env.reply)
  }

  ghost predicate IsRun(cfg: Config, es: seq<Event>) {
    es == [] || (IsRun(cfg, es[..|es| - 1]) && Possible(AfterAll(cfg, es[..|es| - 1]), es[|es| - 1]))
  }

  function AfterAll(cfg: Config, es: seq<Event>): Run {
    if es == [] then Began(cfg) else After(cfg, AfterAll(cfg, es[..|es| - 1]), es[|es| - 1])
  }

  /** Every commit from the baseline up to the cursor was accepted, and so was the head that the
      stored ETag names. */
  ghost predicate Delivered(r: Run) {
    var s := r.world.state;
    && s.lastSHA <= r.head
    && (s.lastSHA > 0 ==> r.base < s.lastSHA)
    && (forall c | r.base < c <= s.lastSHA :: c in r.world.accepted)
    && s.lastETag <= s.lastSHA
    && (s.lastETag > 0 ==> r.base < s.lastETag && s.lastETag in r.world.accepted)
  }

  lemma ListingAccepted(head: nat, since: nat, commits: seq<nat>)
    requires IsListing(head, since, commits) && commits != [] && since <= head
    ensures commits[0] == head > since
    ensures forall c: nat | (if since > 0 then since else Oldest(Listed(commits, 0))) < c <= head :: c in commits
    ensures since == 0 ==> Oldest(Listed(commits, 0)) < head
  {
    var from: nat :| from <= head && (since > 0 ==> from == since) && (head > 0 && since == 0 ==> from < head)
      && commits == NewestFirst(from, head);
    assert commits[|commits| - 1] == from + 1;
    forall c: nat | from < c <= head
      ensures c in commits
    {
      NewestFirstHolds(from, head, c);
    }
  }

  lemma StepKeeps(cfg: Config, r: Run, e: Event)
    requires Delivered(r) && Possible(r, e)
    ensures Delivered(After(cfg, r, e))
  {
    if e.Poll? && e.env.loads && e.env.reply.Listed? {
      var s, commits := r.world.state, e.env.reply.commits;
      if commits != [] {
        ListingAccepted(e.head, s.lastSHA, commits);
        assert Oldest(e.env.reply) == Oldest(Listed(commits, 0));
      } else {
        NothingListed(e.head, s.lastSHA);
      }
    }
  }

  /** An honest listing is empty only when the cursor is at head. */
  lemma NothingListed(head: nat, since: nat)
    requires IsListing(head, since, [])
    ensures since == head
  {
    var from: nat :| from <= head && (since > 0 ==> from == since) && (head > 0 && since == 0 ==> from < head)
      && [] == NewestFirst(from, head);
    assert |NewestFirst(from, head)| == 0;
  }

  /** Over every run with failing loads, listings, callbacks and saves, crashes and restarts: no
      commit at or before the cursor was skipped, and the stored ETag never names a head that was
      not accepted. */
  lemma {:induction false} NoCommitSkipped(cfg: Config, es: seq<Event>)
    requires IsRun(cfg, es)
    ensures Delivered(AfterAll(cfg, es))
  {
    if es != [] {
      NoCommitSkipped(cfg, es[..|es| - 1]);
      StepKeeps(cfg, AfterAll(cfg, es[..|es| - 1]), es[|es| - 1]);
    }
  }

  /** In every run, an answer without commits means that every commit from the baseline on is
      accepted; and a poll in which nothing fails ends with the cursor at the newest commit. */
  lemma NothingHidden(cfg: Config, es: seq<Event>, head: nat, env: Env)
    requires IsRun(cfg, es) && Possible(AfterAll(cfg, es), Poll(head, env))
    ensures var r, r' := AfterAll(cfg, es), After(cfg, AfterAll(cfg, es), Poll(head, env));
            && (env.reply.NotModified? || (env.reply.Listed? && env.reply.commits == []) ==>
                  r.world.state.lastSHA == head && forall c | r.base < c <= head :: c in r.world.accepted)
            && (env.loads && !env.reply.Failed? && env.indexes && env.saves ==>
                  r'.world.state.lastSHA == head && forall c | r'.base < c <= head :: c in r'.world.accepted)
  {
    NoCommitSkipped(cfg, es);
    StepKeeps(cfg, AfterAll(cfg, es), Poll(head, env));
    var s := AfterAll(cfg, es).world.state;
    if env.reply.Listed? {
      if env.reply.commits == [] {
        NothingListed(head, s.lastSHA);
      } else {
        ListingAccepted(head, s.lastSHA, env.reply.commits);
      }
    }
  }

  /** A batch the callback refused, or whose cursor was not written, is listed again, whole, by the
      next answer; that answer cannot be "not modified". */
  lemma Redelivered(cfg: Config, es: seq<Event>, head: nat, env: Env, head': nat, env': Env)
    requires IsRun(cfg, es + [Poll(head, env), Poll(head', env')])
    requires env.loads && env.reply.Listed? && env.reply.commits != [] && !(env.indexes && env.saves)
    requires AfterAll(cfg, es).world.state.lastSHA > 0
    ensures !env'.reply.NotModified?
    ensures env'.reply.Listed? ==> forall c | c in env.reply.commits :: c in env'.reply.commits
  {
    var es1 := es + [Poll(head, env)];
    var all := es + [Poll(head, env), Poll(head', env')];
    assert all[..|all| - 1] == es1 && es1[..|es1| - 1] == es;
    NoCommitSkipped(cfg, es1);
    var r, r1 := AfterAll(cfg, es), AfterAll(cfg, es1);
    NoCommitSkipped(cfg, es);
    var since := r.world.state.lastSHA;
    assert r1.world.state.lastSHA == since && r1.world.state.lastETag == r.world.state.lastETag;
    ListingAccepted(head, since, env.reply.commits);
    if env'.reply.Listed? {
      forall c | c in env.reply.commits
        ensures c in env'.reply.commits
      {
        NewestFirstHolds(since, head, c);
        NewestFirstHolds(since, head', c);
      }
    }
  }

  /** The watcher trusts an empty listing: its ETag replaces the stored one.  From a state without
      skipped commits, the ETag then still names an accepted head exactly when it is empty or names a
      commit between the baseline and the cursor. */
  lemma EmptyListingTrusted(cfg: Config, r: Run, env: Env)
    requires Delivered(r) && env.loads && env.saves && env.reply.Listed? && env.reply.commits == []
    ensures var r', etag := After(cfg, r, Poll(r.head, env)), env.reply.etag;
            Delivered(r') <==> etag == 0 || r.base < etag <= r.world.state.lastSHA
  {
    var s := After(cfg, r, Poll(r.head, env)).world.state;
    assert s.lastSHA == r.world.state.lastSHA && s.lastETag == env.reply.etag;
    assert s.lastETag == 0 || r.base < s.lastETag <= s.lastSHA ==> s.lastETag == 0 || s.lastETag in r.world.accepted;
  }

  // ----- The interval -----

  function Pow2(k: nat): nat {
    if k == 0 then 1 else 2 * Pow2(k - 1)
  }

  ghost predicate Idle(e: Event) {
    e.Poll? && e.env.loads && (e.env.reply.NotModified? || (e.env.reply.Listed? && e.env.reply.commits == []))
  }

  ghost predicate Bounded(cfg: Config) {
    0 < cfg.interval <= cfg.maxInterval < TWO_62
  }

  lemma {:induction false} IntervalStaysInRange(cfg: Config, es: seq<Event>)
    requires Bounded(cfg)
    ensures cfg.interval <= AfterAll(cfg, es).world.interval <= cfg.maxInterval
  {
    if es != [] {
      IntervalStaysInRange(cfg, es[..|es| - 1]);
    }
  }

  /** k idle polls after anything that left the interval at its base. */
  lemma {:induction false} IdlePollsDouble(cfg: Config, r: Run, es: seq<Event>)
    requires Bounded(cfg) && r.world.interval == cfg.interval
    requires forall e | e in es :: Idle(e)
    ensures Continued(cfg, r, es).world.interval == Min(Pow2(|es|) * cfg.interval, cfg.maxInterval)
  {
    if es != [] {
      var n := |es| - 1;
      IdlePollsDouble(cfg, r, es[..n]);
      assert Idle(es[n]);
      Twice(Pow2(n), cfg.interval);
      DoubledMin(Pow2(n) * cfg.interval, cfg.maxInterval);
    }
  }

  lemma Twice(p: nat, i: int)
    requires i > 0
    ensures (2 * p) * i == 2 * (p * i) && p * i >= 0
  {
  }

  lemma DoubledMin(d: int, max: int)
    requires 0 <= d && 0 <= max < TWO_62
    ensures Doubled(Min(d, max), max) == Min(2 * d, max)
  {
  }

  function Continued(cfg: Config, r: Run, es: seq<Event>): Run {
    if es == [] then r else After(cfg, Continued(cfg, r, es[..|es| - 1]), es[|es| - 1])
  }

  /** Callback failures do not escalate: each one starts from the base interval again, so after any
      number of them the wait is one doubling of the base. */
  lemma FailuresDoNotEscalate(cfg: Config, r: Run, es: seq<Event>)
    requires Bounded(cfg) && es != []
    requires forall e | e in es :: e.Poll? && e.env.loads && e.env.reply.Listed? && e.env.reply.commits != [] && !e.env.indexes
    ensures Continued(cfg, r, es).world.interval == Min(2 * cfg.interval, cfg.maxInterval)
  {
    assert es[|es| - 1] in es;
  }

  /** Nor do outages: while loads or listings fail, nothing changes, the interval included. */
  lemma {:induction false} OutageKeepsPace(cfg: Config, r: Run, es: seq<Event>)
    requires forall e | e in es :: e.Poll? && (!e.env.loads || e.env.reply.Failed?)
    ensures Continued(cfg, r, es).world == r.world
  {
    if es != [] {
      assert es[|es| - 1] in es;
      OutageKeepsPace(cfg, r, es[..|es| - 1]);
    }
  }

  /** At the base, exactly these polls back off: those that got an answer and either found nothing new
      or could not hand it on. */
  lemma BacksOffExact(cfg: Config, r: Run, head: nat, env: Env)
    requires Bounded(cfg) && r.world.interval == cfg.interval < cfg.maxInterval
    ensures After(cfg, r, Poll(head, env)).world.interval > cfg.interval <==>
              env.loads && (env.reply.NotModified? || (env.reply.Listed? && (env.reply.commits == [] || !env.indexes)))
  {
    assert Doubled(cfg.interval, cfg.maxInterval) == Min(2 * cfg.interval, cfg.maxInterval);
  }

  /** d after k idle polls. */
  function Backoff(d: int, max: int, k: nat): int {
    if k == 0 then d else Doubled(Backoff(d, max, k - 1), max)
  }

  lemma {:induction false} BackoffShift(d: int, max: int, k: nat)
    ensures Backoff(Doubled(d, max), max, k) == Backoff(d, max, k + 1)
  {
    if k > 0 {
      BackoffShift(d, max, k - 1);
    }
  }

  /** A positive base interval never leaves its range, however long the branch stays idle, exactly
      when the maximum is below 2^62 nanoseconds; from there on the doubling wraps around. */
  lemma RangeExact(cfg: Config)
    requires 0 < cfg.interval <= cfg.maxInterval < 2 * TWO_62
    ensures (forall k: nat :: cfg.interval <= Backoff(cfg.interval, cfg.maxInterval, k) <= cfg.maxInterval) <==> cfg.maxInterval < TWO_62
  {
    if cfg.maxInterval < TWO_62 {
      forall k: nat
        ensures cfg.interval <= Backoff(cfg.interval, cfg.maxInterval, k) <= cfg.maxInterval
      {
        BackoffInRange(cfg, k);
      }
    } else {
      var k := Escapes(cfg.interval, cfg.maxInterval);
      assert !(cfg.interval <= Backoff(cfg.interval, cfg.maxInterval, k));
    }
  }

  lemma {:induction false} BackoffInRange(cfg: Config, k: nat)
    requires Bounded(cfg)
    ensures cfg.interval <= Backoff(cfg.interval, cfg.maxInterval, k) <= cfg.maxInterval
  {
    if k > 0 {
      BackoffInRange(cfg, k - 1);
    }
  }

  lemma {:induction false} Escapes(d: int, max: int) returns (k: nat)
    requires 0 < d <= max < 2 * TWO_62 && TWO_62 <= max
    ensures Backoff(d, max, k) < 0
    decreases TWO_62 - d
  {
    if d >= TWO_62 {
      k := 1;
      assert Backoff(d, max, 1) == Doubled(Backoff(d, max, 0), max);
    } else {
      var k' := Escapes(Doubled(d, max), max);
      BackoffShift(d, max, k');
      k := k' + 1;
    }
  }

  /** A negative base interval is not refused.  Its first idle poll leaves the range exactly when the
      base is at least -2^62; below, doubling wraps around, and the next wait is the wrapped value or
      the maximum. */
  lemma NegativeIntervalEscapes(cfg: Config)
    requires -2 * TWO_62 <= cfg.interval < 0 && cfg.interval <= cfg.maxInterval
    ensures Backoff(cfg.interval, cfg.maxInterval, 1) < cfg.interval <==> cfg.interval >= -TWO_62
    ensures cfg.interval < -TWO_62 ==>
              Backoff(cfg.interval, cfg.maxInterval, 1) == Min(2 * cfg.interval + 4 * TWO_62, cfg.maxInterval)
  {
    assert Backoff(cfg.interval, cfg.maxInterval, 0) == cfg.interval;
    assert Backoff(cfg.interval, cfg.maxInterval, 1) == Doubled(cfg.interval, cfg.maxInterval);
    if cfg.interval < -TWO_62 {
      assert Wrap(2 * cfg.interval) == 2 * cfg.interval + 4 * TWO_62;
    }
  }
  lemma {:induction false} IdlePollsBackOff(cfg: Config, r: Run, es: seq<Event>)
    requires forall e | e in es :: Idle(e)
    ensures Continued(cfg, r, es).world.interval == Backoff(r.world.interval, cfg.maxInterval, |es|)
  {
    if es != [] {
      assert Idle(es[|es| - 1]);
      IdlePollsBackOff(cfg, r, es[..|es| - 1]);
    }
  }

  /** 2^k * d. */
  function Scaled(d: int, k: nat): int {
    if k == 0 then d else 2 * Scaled(d, k - 1)
  }

  lemma {:induction false} ScaledExact(d: int, k: nat)
    ensures Scaled(d, k) == Pow2(k) * d
  {
    if k > 0 {
      ScaledExact(d, k - 1);
      assert Pow2(k) * d == (2 * Pow2(k - 1)) * d;
    }
  }

  /** The doubling of d reaches below the 64-bit range with its j-th step. */
  predicate WrapsAt(d: int, j: nat) {
    j > 0 && Scaled(d, j) < -2 * TWO_62 <= Scaled(d, j - 1)
  }

  /** It does so for every negative d, once. */
  lemma {:induction false} WrapsOnce(d: int, i: nat) returns (j: nat)
    requires d < 0 && -2 * TWO_62 <= Scaled(d, i)
    ensures j > i && WrapsAt(d, j)
    ensures forall k: nat | WrapsAt(d, k) :: k == j
    decreases 2 * TWO_62 + Scaled(d, i)
  {
    Sinks(d, 0, i);
    if Scaled(d, i + 1) < -2 * TWO_62 {
      j := i + 1;
      forall k: nat | WrapsAt(d, k)
        ensures k == j
      {
        if k < j {
          Sinks(d, k, i);
        } else if k > j {
          Sinks(d, j, k - 1);
        }
      }
    } else {
      j := WrapsOnce(d, i + 1);
    }
  }

  lemma {:induction false} Sinks(d: int, k: nat, j: nat)
    requires d < 0 && k <= j
    ensures Scaled(d, j) <= Scaled(d, k) < 0
    decreases j
  {
    if k < j {
      Sinks(d, k, j - 1);
    } else if k > 0 {
      Sinks(d, k - 1, k - 1);
    }
  }

  lemma {:induction false} NegativeDoubles(d: int, max: int, k: nat)
    requires d < 0 && d <= max && -2 * TWO_62 <= Scaled(d, k)
    ensures Backoff(d, max, k) == Scaled(d, k)
  {
    if k > 0 {
      Sinks(d, 0, k - 1);
      NegativeDoubles(d, max, k - 1);
    }
  }

  lemma {:induction false} BackoffSplit(d: int, max: int, j: nat, k: nat)
    ensures Backoff(d, max, j + k) == Backoff(Backoff(d, max, j), max, k)
  {
    if k > 0 {
      BackoffSplit(d, max, j, k - 1);
    }
  }

  lemma {:induction false} PositiveDoubles(d: int, max: int, k: nat)
    requires 0 <= d && 0 <= max < TWO_62
    ensures Scaled(d, k) >= 0 && Backoff(Min(d, max), max, k) == Min(Scaled(d, k), max)
  {
    if k > 0 {
      PositiveDoubles(d, max, k - 1);
      DoubledMin(Scaled(d, k - 1), max);
    }
  }

  /** Any number of idle polls from a negative base.  The wait is the base doubled each time, further and
      further below it, until the doubling wraps around with the j-th; there it is the wrapped value,
      which is not negative, or the maximum, and the doubling goes on from there. */
  lemma NegativeIdlePolls(cfg: Config, r: Run, es: seq<Event>, j: nat)
    requires -2 * TWO_62 <= cfg.interval < 0 && cfg.interval <= cfg.maxInterval && r.world.interval == cfg.interval
    requires (forall e | e in es :: Idle(e)) && WrapsAt(cfg.interval, j)
    ensures IsWait(Continued(cfg, r, es).world.interval, cfg.interval, cfg.maxInterval, |es|, j)
  {
    IdlePollsBackOff(cfg, r, es);
    NegativeBackoff(cfg.interval, cfg.maxInterval, |es|, j);
  }

  /** The wait after k doublings of d, of which the j-th wraps. */
  predicate IsWait(wait: int, d: int, max: int, k: nat, j: nat) {
    var wrapped := Scaled(d, j) + 4 * TWO_62;
    && 0 <= wrapped < 2 * TWO_62
    && (k < j ==> wait == Scaled(d, k) <= d)
    && (k >= j ==> wait == Backoff(Min(wrapped, max), max, k - j))
    && (k >= j && 0 <= max < TWO_62 ==> wait == Min(Scaled(wrapped, k - j), max))
  }

  lemma NegativeBackoff(d: int, max: int, k: nat, j: nat)
    requires -2 * TWO_62 <= d < 0 && d <= max && WrapsAt(d, j)
    ensures IsWait(Backoff(d, max, k), d, max, k, j)
  {
    AtTheWrap(d, max, j);
    if k < j {
      BeforeTheWrap(d, max, k, j);
    } else {
      AfterTheWrap(d, max, k - j, j);
    }
  }

  lemma BeforeTheWrap(d: int, max: int, k: nat, j: nat)
    requires d < 0 && d <= max && WrapsAt(d, j) && k < j
    ensures Backoff(d, max, k) == Scaled(d, k) <= d
  {
    Sinks(d, k, j - 1);
    Sinks(d, 0, k);
    NegativeDoubles(d, max, k);
  }

  lemma AfterTheWrap(d: int, max: int, k: nat, j: nat)
    requires -2 * TWO_62 <= d < 0 && d <= max && WrapsAt(d, j)
    ensures var wrapped := Scaled(d, j) + 4 * TWO_62;
            && Backoff(d, max, j + k) == Backoff(Min(wrapped, max), max, k)
            && (0 <= max < TWO_62 ==> Backoff(d, max, j + k) == Min(Scaled(wrapped, k), max))
  {
    AtTheWrap(d, max, j);
    BackoffSplit(d, max, j, k);
    if 0 <= max < TWO_62 {
      PositiveDoubles(Scaled(d, j) + 4 * TWO_62, max, k);
    }
  }

  lemma AtTheWrap(d: int, max: int, j: nat)
    requires -2 * TWO_62 <= d < 0 && d <= max && WrapsAt(d, j)
    ensures 0 <= Scaled(d, j) + 4 * TWO_62 < 2 * TWO_62
    ensures Backoff(d, max, j) == Min(Scaled(d, j) + 4 * TWO_62, max)
  {
    NegativeDoubles(d, max, j - 1);
    Wrapped(Scaled(d, j - 1));
  }

  lemma Wrapped(n: int)
    requires -2 * TWO_62 <= n < -TWO_62
    ensures Wrap(2 * n) == 2 * n + 4 * TWO_62
  {
  }
}
