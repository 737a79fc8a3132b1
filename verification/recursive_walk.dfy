/** The concurrent closure walk of internal/ingest/recursive.go.

    One coordinator and W workers exchange work over two bounded channels.  The
    coordinator's own state is changed by `enqueue` and `handle`; the channels
    and the workers interleave with it in every possible order.  The module
    gives the coordinator as a class, the interleaving as a step relation, and
    proves what every schedule ends with.
 */
module RecursiveWalk {
  import opened Wrappers

  // ----- Keys, dependencies and what one walk of a module yields -----

  datatype ModuleKey = ModuleKey(name: string, version: string)

  datatype BazelDep = BazelDep(name: string, version: string, devDependency: bool)

  /** What the registry has for one key: a parsed MODULE.bazel, or an error on the way to it. */
  datatype Fetched = FetchFailed | ModuleFile(deps: seq<BazelDep>)

  type Registry = ModuleKey -> Fetched

  /** The string the coordinator's `visited` map is keyed by. */
  function VisitKey(k: ModuleKey): string {
    k.name + "@" + k.version
  }

  /** The white space that strings.TrimSpace removes (Unicode property White_Space). */
  predicate IsSpace(c: char) {
    || c in {'\t', '\n', '\U{0b}', '\U{0c}', '\r', ' ', '\U{85}', '\U{a0}', '\U{1680}'}
    || '\U{2000}' <= c <= '\U{200a}'
    || c in {'\U{2028}', '\U{2029}', '\U{202f}', '\U{205f}', '\U{3000}'}
  }

  predicate Blank(s: string) {
    forall c | c in s :: IsSpace(c)
  }

  predicate Followed(d: BazelDep) {
    !d.devDependency && !Blank(d.name) && !Blank(d.version)
  }

  /** The keys a walk goes on to, in source order. */
  function FollowedDeps(all: seq<BazelDep>): seq<ModuleKey> {
    if all == [] then []
    else
      var rest := FollowedDeps(all[..|all| - 1]);
      var d := all[|all| - 1];
      if Followed(d) then rest + [ModuleKey(d.name, d.version)] else rest
  }

  /** There is a character in s that is no white space, by its code point. */
  ghost predicate Says(s: string) {
    exists c :: c in s && !White(c as int)
  }

  predicate White(n: int) {
    || 0x09 <= n <= 0x0d || n == 0x20 || n == 0x85 || n == 0xa0 || n == 0x1680
    || 0x2000 <= n <= 0x200a || n == 0x2028 || n == 0x2029 || n == 0x202f || n == 0x205f || n == 0x3000
  }

  lemma BlankExact(s: string)
    ensures Blank(s) <==> !Says(s)
  {
    assert forall c: char :: IsSpace(c) <==> White(c as int);
  }

  /** `parseDeps` keeps exactly the non-dev dependencies that name a module and a version. */
  lemma {:induction false} FollowedDepsExact(all: seq<BazelDep>, k: ModuleKey)
    ensures k in FollowedDeps(all) <==>
            exists d :: d in all && !d.devDependency && Says(d.name) && Says(d.version) && k.name == d.name && k.version == d.version
  {
    if all != [] {
      var n := |all| - 1;
      FollowedDepsExact(all[..n], k);
      BlankExact(all[n].name);
      BlankExact(all[n].version);
      assert forall d :: d in all <==> d in all[..n] || d == all[n];
    }
  }

  /** They keep their order, and one that is declared twice is kept twice. */
  lemma FollowedDepsSplit(all: seq<BazelDep>, d: BazelDep)
    ensures FollowedDeps(all + [d]) ==
              FollowedDeps(all) + if !d.devDependency && Says(d.name) && Says(d.version) then [ModuleKey(d.name, d.version)] else []
  {
    assert (all + [d])[..|all|] == all;
    BlankExact(d.name);
    BlankExact(d.version);
  }

  method ParseDeps(all: seq<BazelDep>) returns (deps: seq<ModuleKey>)
    ensures deps == FollowedDeps(all)
  {
    deps := [];
    for i := 0 to |all|
      invariant deps == FollowedDeps(all[..i])
    {
      assert all[..i + 1][..i] == all[..i];
      var d := all[i];
      if !d.devDependency && !Blank(d.name) && !Blank(d.version) {
        deps := deps + [ModuleKey(d.name, d.version)];
      }
    }
    assert all[..|all|] == all;
  }

  /** What a worker reports back for one key. */
  datatype Discovery = Discovery(key: ModuleKey, deps: seq<ModuleKey>, failed: bool)

  function Discover(reg: Registry, k: ModuleKey): Discovery {
    match reg(k)
    case FetchFailed => Discovery(k, [], true)
    case ModuleFile(all) => Discovery(k, FollowedDeps(all), false)
  }

  /** A walk of k goes on to dep: the module file of k declares it for its consumers, with a name and a
      version. */
  ghost predicate DependsOn(reg: Registry, k: ModuleKey, dep: ModuleKey) {
    && reg(k).ModuleFile?
    && exists d :: d in reg(k).deps && !d.devDependency && Says(d.name) && Says(d.version) && dep.name == d.name && dep.version == d.version
  }

  lemma DiscoverExact(reg: Registry, k: ModuleKey, dep: ModuleKey)
    ensures Discover(reg, k).key == k && (Discover(reg, k).failed <==> reg(k) == FetchFailed)
    ensures dep in Discover(reg, k).deps <==> DependsOn(reg, k, dep)
  {
    if reg(k).ModuleFile? {
      FollowedDepsExact(reg(k).deps, dep);
    }
  }

  method WalkOne(reg: Registry, k: ModuleKey) returns (d: Discovery)
    ensures d == Discover(reg, k)
  {
    match reg(k)
    case FetchFailed =>
      d := Discovery(k, [], true);
    case ModuleFile(all) =>
      var deps := ParseDeps(all);
      d := Discovery(k, deps, false);
  }

  // ----- The coordinator -----

  /** The coordinator's local variables, with the keys its Reporter was given per event kind.
      The "error" events are `res.Errors`. */
  datatype Coord = Coord(
    visited: set<string>,
    pending: seq<ModuleKey>,
    inflight: int,
    visitedCount: nat,
    mirrored: nat,
    errors: seq<ModuleKey>,
    entered: seq<ModuleKey>,
    done: seq<ModuleKey>)

  const START := Coord({}, [], 0, 0, 0, [], [], [])

  function Enqueued(c: Coord, k: ModuleKey): Coord {
    if VisitKey(k) in c.visited then c
    else c.(visited := c.visited + {VisitKey(k)},
            visitedCount := c.visitedCount + 1,
            entered := c.entered + [k],
            pending := c.pending + [k],
            inflight := c.inflight + 1)
  }

  function EnqueuedAll(c: Coord, ks: seq<ModuleKey>): Coord
    decreases |ks|
  {
    if ks == [] then c else EnqueuedAll(Enqueued(c, ks[0]), ks[1..])
  }

  function Succeeded(c: Coord, k: ModuleKey): Coord {
    c.(inflight := c.inflight - 1, mirrored := c.mirrored + 1, done := c.done + [k])
  }

  function Handled(c: Coord, d: Discovery): Coord {
    if d.failed then c.(inflight := c.inflight - 1, errors := c.errors + [d.key])
    else EnqueuedAll(Succeeded(c, d.key), d.deps)
  }

  class Coordinator {
    var visited: set<string>
    var pending: seq<ModuleKey>
    var inflight: int
    var visitedCount: nat
    var mirrored: nat
    var errors: seq<ModuleKey>
    var entered: seq<ModuleKey>
    var done: seq<ModuleKey>

    ghost function State(): Coord
      reads this
    {
      Coord(visited, pending, inflight, visitedCount, mirrored, errors, entered, done)
    }

    constructor ()
      ensures State() == START
    {
      visited, pending, inflight, visitedCount := {}, [], 0, 0;
      mirrored, errors, entered, done := 0, [], [], [];
    }

    method Enqueue(k: ModuleKey)
      modifies this
      ensures State() == Enqueued(old(State()), k)
    {
      var key := k.name + "@" + k.version;
      if key in visited {
        return;
      }
      visited := visited + {key};
      visitedCount := visitedCount + 1;
      entered := entered + [k];
      pending := pending + [k];
      inflight := inflight + 1;
    }

    method EnqueueAll(ks: seq<ModuleKey>)
      modifies this
      ensures State() == EnqueuedAll(old(State()), ks)
    {
      for i := 0 to |ks|
        invariant EnqueuedAll(State(), ks[i..]) == EnqueuedAll(old(State()), ks)
      {
        assert ks[i..][0] == ks[i] && ks[i..][1..] == ks[i + 1..];
        Enqueue(ks[i]);
      }
    }

    /** Absorbs one discovery: `inflight--` and `handle` of the select loop. */
    method Handle(d: Discovery)
      modifies this
      ensures State() == Handled(old(State()), d)
    {
      inflight := inflight - 1;
      if d.failed {
        errors := errors + [d.key];
        return;
      }
      mirrored := mirrored + 1;
      done := done + [d.key];
      EnqueueAll(d.deps);
    }

    /** The head of the pending queue leaves for the jobs channel. */
    method Dispatch() returns (k: ModuleKey)
      requires pending != []
      modifies this
      ensures k == old(pending[0])
      ensures State() == old(State()).(pending := old(pending[1..]))
    {
      k := pending[0];
      pending := pending[1..];
    }
  }

  // ----- The whole system: coordinator, channels, workers -----

  datatype Worker = Idle | Walking(key: ModuleKey) | Sending(d: Discovery)

  /** `walks` lists the keys `walkOne` was called with, in call order. */
  datatype System = System(
    c: Coord,
    jobs: seq<ModuleKey>,
    workers: seq<Worker>,
    discoveries: seq<Discovery>,
    walks: seq<ModuleKey>)

  /** One atomic step: the two arms of the coordinator's select, and a worker taking a job,
      finishing its walk, or handing its discovery to the channel. */
  datatype Step = SendJob | Receive | Take(i: nat) | Finish(i: nat) | Deliver(i: nat)

  /** Both channels are buffered at twice the number of workers. */
  function Capacity(s: System): nat {
    2 * |s.workers|
  }

  predicate Enabled(s: System, step: Step) {
    match step
    case SendJob => s.c.inflight > 0 && s.c.pending != [] && |s.jobs| < Capacity(s)
    case Receive => s.c.inflight > 0 && s.discoveries != []
    case Take(i) => i < |s.workers| && s.workers[i].Idle? && s.jobs != []
    case Finish(i) => i < |s.workers| && s.workers[i].Walking?
    case Deliver(i) => i < |s.workers| && s.workers[i].Sending? && |s.discoveries| < Capacity(s)
  }

  function After(s: System, step: Step, reg: Registry): System
    requires Enabled(s, step)
  {
    match step
    case SendJob =>
      s.(c := s.c.(pending := s.c.pending[1..]), jobs := s.jobs + [s.c.pending[0]])
    case Receive =>
      s.(c := Handled(s.c, s.discoveries[0]), discoveries := s.discoveries[1..])
    case Take(i) =>
      s.(jobs := s.jobs[1..], workers := s.workers[i := Walking(s.jobs[0])],
         walks := s.walks + [s.jobs[0]])
    case Finish(i) =>
      s.(workers := s.workers[i := Sending(Discover(reg, s.workers[i].key))])
    case Deliver(i) =>
      s.(workers := s.workers[i := Idle], discoveries := s.discoveries + [s.workers[i].d])
  }

  /** A schedule is any sequence of enabled steps. */
  ghost predicate Schedule(s: System, steps: seq<Step>, reg: Registry)
    decreases |steps|
  {
    steps == [] || (Enabled(s, steps[0]) && Schedule(After(s, steps[0], reg), steps[1..], reg))
  }

  ghost function Execute(s: System, steps: seq<Step>, reg: Registry): System
    requires Schedule(s, steps, reg)
    decreases |steps|
  {
    if steps == [] then s else Execute(After(s, steps[0], reg), steps[1..], reg)
  }

  /** The state in which the select loop starts: seeds enqueued, n idle workers, empty channels. */
  function Initial(seeds: seq<ModuleKey>, n: nat): System {
    System(EnqueuedAll(START, seeds), [], seq(n, _ => Idle), [], [])
  }

  // ----- The least set closed under followed dependencies -----

  ghost predicate Contains(seeds: seq<ModuleKey>, s: set<ModuleKey>) {
    forall k | k in seeds :: k in s
  }

  ghost predicate Closed(reg: Registry, s: set<ModuleKey>) {
    forall k, dep | k in s && DependsOn(reg, k, dep) :: dep in s
  }

  ghost predicate IsLeastClosure(seeds: seq<ModuleKey>, reg: Registry, s: set<ModuleKey>) {
    && Contains(seeds, s)
    && Closed(reg, s)
    && forall t: set<ModuleKey> | Contains(seeds, t) && Closed(reg, t) :: s <= t
  }

  ghost predicate IsPath(seeds: seq<ModuleKey>, reg: Registry, p: seq<ModuleKey>) {
    && p != []
    && p[0] in seeds
    && forall i | 0 < i < |p| :: DependsOn(reg, p[i - 1], p[i])
  }

  ghost predicate Reachable(seeds: seq<ModuleKey>, reg: Registry, k: ModuleKey) {
    exists p :: IsPath(seeds, reg, p) && p[|p| - 1] == k
  }

  ghost predicate InjectiveOnReachable(seeds: seq<ModuleKey>, reg: Registry) {
    forall k, l | Reachable(seeds, reg, k) && Reachable(seeds, reg, l) && VisitKey(k) == VisitKey(l) :: k == l
  }

  lemma SeedReachable(seeds: seq<ModuleKey>, reg: Registry, k: ModuleKey)
    requires k in seeds
    ensures Reachable(seeds, reg, k)
  {
    assert IsPath(seeds, reg, [k]);
  }

  lemma DepReachable(seeds: seq<ModuleKey>, reg: Registry, k: ModuleKey, dep: ModuleKey)
    requires Reachable(seeds, reg, k) && DependsOn(reg, k, dep)
    ensures Reachable(seeds, reg, dep)
  {
    var p :| IsPath(seeds, reg, p) && p[|p| - 1] == k;
    assert IsPath(seeds, reg, p + [dep]) && (p + [dep])[|p|] == dep;
  }

  lemma {:induction false} PathStaysInClosed(seeds: seq<ModuleKey>, reg: Registry, p: seq<ModuleKey>, s: set<ModuleKey>)
    requires Contains(seeds, s) && Closed(reg, s) && IsPath(seeds, reg, p)
    ensures p[|p| - 1] in s
  {
    var n := |p| - 1;
    if n > 0 {
      assert IsPath(seeds, reg, p[..n]);
      PathStaysInClosed(seeds, reg, p[..n], s);
    }
  }

  lemma ReachableIn(seeds: seq<ModuleKey>, reg: Registry, k: ModuleKey, s: set<ModuleKey>)
    requires Contains(seeds, s) && Closed(reg, s) && Reachable(seeds, reg, k)
    ensures k in s
  {
    var p :| IsPath(seeds, reg, p) && p[|p| - 1] == k;
    PathStaysInClosed(seeds, reg, p, s);
  }

  // ----- The invariant of every schedule -----

  function Times(ks: seq<ModuleKey>, k: ModuleKey): nat {
    multiset(ks)[k]
  }

  function HeldBy(w: Worker, k: ModuleKey): nat {
    match w
    case Idle => 0
    case Walking(l) => if l == k then 1 else 0
    case Sending(d) => if d.key == k then 1 else 0
  }

  function Held(ws: seq<Worker>, k: ModuleKey): nat {
    if ws == [] then 0 else Held(ws[..|ws| - 1], k) + HeldBy(ws[|ws| - 1], k)
  }

  function Reported(ds: seq<Discovery>, k: ModuleKey): nat {
    if ds == [] then 0 else (if ds[0].key == k then 1 else 0) + Reported(ds[1..], k)
  }

  function Busy(ws: seq<Worker>): nat {
    if ws == [] then 0 else Busy(ws[..|ws| - 1]) + if ws[|ws| - 1].Idle? then 0 else 1
  }

  ghost predicate Distinct(ks: seq<ModuleKey>) {
    forall i, j | 0 <= i < j < |ks| :: VisitKey(ks[i]) != VisitKey(ks[j])
  }

  /** `visited` is exactly the set of the entered keys' strings. */
  ghost predicate VisitedIsEntered(c: Coord) {
    && (forall k | k in c.entered :: VisitKey(k) in c.visited)
    && (forall v | v in c.visited :: exists k :: k in c.entered && VisitKey(k) == v)
  }

  /** What the coordinator's variables say about each other, whatever the workers do. */
  ghost predicate CoordInv(c: Coord, seeds: seq<ModuleKey>, reg: Registry) {
    && Distinct(c.entered)
    && VisitedIsEntered(c)
    && |c.entered| == c.visitedCount
    && |c.done| == c.mirrored
    && (forall k | k in c.entered :: Reachable(seeds, reg, k))
  }

  ghost predicate SeedsEntered(c: Coord, seeds: seq<ModuleKey>) {
    forall k | k in seeds :: VisitKey(k) in c.visited
  }

  ghost predicate ReportsTrue(c: Coord, reg: Registry) {
    && (forall k | k in c.done :: !Discover(reg, k).failed)
    && (forall k | k in c.errors :: Discover(reg, k).failed)
    && (forall k, dep | k in c.done && dep in Discover(reg, k).deps :: VisitKey(dep) in c.visited)
  }

  ghost predicate Honest(d: Discovery, reg: Registry) {
    d == Discover(reg, d.key)
  }

  ghost predicate AllHonest(s: System, reg: Registry) {
    && (forall d | d in s.discoveries :: Honest(d, reg))
    && (forall w | w in s.workers && w.Sending? :: Honest(w.d, reg))
  }

  /** Where key k is: entered as often as it is pending, a job, held by a worker, reported,
      done or failed; and walked as often as it has left the jobs channel. */
  ghost predicate Balanced(s: System, k: ModuleKey) {
    && Times(s.walks, k) == Held(s.workers, k) + Reported(s.discoveries, k) + Times(s.c.done, k) + Times(s.c.errors, k)
    && Times(s.c.entered, k) == Times(s.c.pending, k) + Times(s.jobs, k) + Times(s.walks, k)
  }

  /** The same balance over all keys, and `inflight` as the part that is not yet handled. */
  ghost predicate Sized(s: System) {
    && s.c.inflight == |s.c.pending| + |s.jobs| + Busy(s.workers) + |s.discoveries|
    && |s.c.entered| == s.c.inflight + |s.c.done| + |s.c.errors|
    && |s.walks| == Busy(s.workers) + |s.discoveries| + |s.c.done| + |s.c.errors|
    && |s.jobs| <= Capacity(s)
    && |s.discoveries| <= Capacity(s)
  }

  ghost predicate Inv(s: System, seeds: seq<ModuleKey>, reg: Registry) {
    && CoordInv(s.c, seeds, reg)
    && SeedsEntered(s.c, seeds)
    && ReportsTrue(s.c, reg)
    && AllHonest(s, reg)
    && (forall k :: Balanced(s, k))
    && Sized(s)
  }

  // --- Counting ---

  lemma TimesHead(ks: seq<ModuleKey>, k: ModuleKey)
    requires ks != []
    ensures Times(ks, k) == (if ks[0] == k then 1 else 0) + Times(ks[1..], k)
  {
    assert ks == [ks[0]] + ks[1..];
  }

  lemma TimesIn(ks: seq<ModuleKey>, k: ModuleKey)
    ensures Times(ks, k) > 0 <==> k in ks
  {
    assert k in multiset(ks) <==> k in ks;
  }

  lemma {:induction false} HeldUpdate(ws: seq<Worker>, i: nat, w: Worker, k: ModuleKey)
    requires i < |ws|
    ensures Held(ws[i := w], k) == Held(ws, k) - HeldBy(ws[i], k) + HeldBy(w, k)
  {
    var n := |ws| - 1;
    if i == n {
      assert ws[i := w][..n] == ws[..n];
    } else {
      HeldUpdate(ws[..n], i, w, k);
      assert ws[i := w][..n] == ws[..n][i := w];
    }
  }

  lemma {:induction false} BusyUpdate(ws: seq<Worker>, i: nat, w: Worker)
    requires i < |ws|
    ensures Busy(ws[i := w]) == Busy(ws) - (if ws[i].Idle? then 0 else 1) + if w.Idle? then 0 else 1
  {
    var n := |ws| - 1;
    if i == n {
      assert ws[i := w][..n] == ws[..n];
    } else {
      BusyUpdate(ws[..n], i, w);
      assert ws[i := w][..n] == ws[..n][i := w];
    }
  }

  lemma {:induction false} BusyIdle(ws: seq<Worker>)
    ensures Busy(ws) == 0 <==> forall w | w in ws :: w.Idle?
  {
    if ws != [] {
      var n := |ws| - 1;
      BusyIdle(ws[..n]);
      assert forall w :: w in ws <==> w in ws[..n] || w == ws[n];
    }
  }

  lemma {:induction false} HeldIdle(ws: seq<Worker>, k: ModuleKey)
    requires forall w | w in ws :: w.Idle?
    ensures Held(ws, k) == 0
  {
    if ws != [] {
      HeldIdle(ws[..|ws| - 1], k);
    }
  }

  lemma {:induction false} ReportedAppend(ds: seq<Discovery>, d: Discovery, k: ModuleKey)
    ensures Reported(ds + [d], k) == Reported(ds, k) + if d.key == k then 1 else 0
  {
    if ds == [] {
      assert ds + [d] == [d] && [d][1..] == [];
    } else {
      ReportedAppend(ds[1..], d, k);
      assert (ds + [d])[1..] == ds[1..] + [d];
    }
  }

  // --- Enqueue and handle keep the coordinator's invariant ---

  lemma EnqueueKeeps(c: Coord, k: ModuleKey, seeds: seq<ModuleKey>, reg: Registry)
    requires CoordInv(c, seeds, reg) && Reachable(seeds, reg, k)
    ensures CoordInv(Enqueued(c, k), seeds, reg)
    ensures VisitKey(k) in Enqueued(c, k).visited
  {
    var c' := Enqueued(c, k);
    if VisitKey(k) !in c.visited {
      forall v | v in c'.visited
        ensures exists l :: l in c'.entered && VisitKey(l) == v
      {
        if v == VisitKey(k) {
          assert k in c'.entered;
        } else {
          var l :| l in c.entered && VisitKey(l) == v;
          assert l in c'.entered;
        }
      }
      forall i, j | 0 <= i < j < |c'.entered|
        ensures VisitKey(c'.entered[i]) != VisitKey(c'.entered[j])
      {
        assert c'.entered[i] == c.entered[i] && c.entered[i] in c.entered;
      }
    }
  }

  lemma {:induction false} EnqueueAllKeeps(c: Coord, ks: seq<ModuleKey>, seeds: seq<ModuleKey>, reg: Registry)
    requires CoordInv(c, seeds, reg)
    requires forall k | k in ks :: Reachable(seeds, reg, k)
    ensures CoordInv(EnqueuedAll(c, ks), seeds, reg)
    ensures forall k | k in ks :: VisitKey(k) in EnqueuedAll(c, ks).visited
    decreases |ks|
  {
    if ks != [] {
      EnqueueKeeps(c, ks[0], seeds, reg);
      EnqueueAllKeeps(Enqueued(c, ks[0]), ks[1..], seeds, reg);
      EnqueueAllGrows(Enqueued(c, ks[0]), ks[1..]);
      assert forall k | k in ks :: k == ks[0] || k in ks[1..];
    }
  }

  lemma {:induction false} EnqueueAllGrows(c: Coord, ks: seq<ModuleKey>)
    ensures var c' := EnqueuedAll(c, ks);
            && c.visited <= c'.visited
            && c'.done == c.done && c'.errors == c.errors
            && |c'.entered| - |c'.pending| == |c.entered| - |c.pending|
            && c'.inflight - |c'.pending| == c.inflight - |c.pending|
    decreases |ks|
  {
    if ks != [] {
      EnqueueAllGrows(Enqueued(c, ks[0]), ks[1..]);
    }
  }

  lemma {:induction false} EnqueueAllBalance(c: Coord, ks: seq<ModuleKey>, k: ModuleKey)
    ensures var c' := EnqueuedAll(c, ks);
            Times(c'.entered, k) - Times(c'.pending, k) == Times(c.entered, k) - Times(c.pending, k)
    decreases |ks|
  {
    if ks != [] {
      EnqueueAllBalance(Enqueued(c, ks[0]), ks[1..], k);
    }
  }

  lemma HandledKeeps(c: Coord, d: Discovery, seeds: seq<ModuleKey>, reg: Registry)
    requires CoordInv(c, seeds, reg) && Honest(d, reg) && d.key in c.entered
    ensures CoordInv(Handled(c, d), seeds, reg)
    ensures !d.failed ==> forall k | k in d.deps :: VisitKey(k) in Handled(c, d).visited
  {
    if !d.failed {
      forall k | k in d.deps
        ensures Reachable(seeds, reg, k)
      {
        DiscoverExact(reg, d.key, k);
        DepReachable(seeds, reg, d.key, k);
      }
      EnqueueAllKeeps(Succeeded(c, d.key), d.deps, seeds, reg);
    }
  }

  lemma HandledReports(c: Coord, d: Discovery, reg: Registry)
    requires ReportsTrue(c, reg) && Honest(d, reg)
    requires !d.failed ==> forall k | k in d.deps :: VisitKey(k) in Handled(c, d).visited
    ensures ReportsTrue(Handled(c, d), reg) && c.visited <= Handled(c, d).visited
  {
    var c' := Handled(c, d);
    EnqueueAllGrows(Succeeded(c, d.key), d.deps);
    forall k, dep | k in c'.done && dep in Discover(reg, k).deps
      ensures VisitKey(dep) in c'.visited
    {
      if k !in c.done {
        assert k == d.key && !d.failed;
      }
    }
  }

  lemma InitialBalanced(seeds: seq<ModuleKey>, n: nat, k: ModuleKey)
    ensures Balanced(Initial(seeds, n), k)
  {
    EnqueueAllBalance(START, seeds, k);
    EnqueueAllGrows(START, seeds);
    HeldIdle(Initial(seeds, n).workers, k);
  }

  lemma InitialCoord(seeds: seq<ModuleKey>, reg: Registry)
    ensures CoordInv(EnqueuedAll(START, seeds), seeds, reg) && SeedsEntered(EnqueuedAll(START, seeds), seeds)
  {
    forall k | k in seeds
      ensures Reachable(seeds, reg, k)
    {
      SeedReachable(seeds, reg, k);
    }
    EnqueueAllKeeps(START, seeds, seeds, reg);
  }

  lemma InitialSized(seeds: seq<ModuleKey>, n: nat, reg: Registry)
    ensures Sized(Initial(seeds, n)) && AllHonest(Initial(seeds, n), reg) && ReportsTrue(Initial(seeds, n).c, reg)
  {
    EnqueueAllGrows(START, seeds);
    BusyIdle(Initial(seeds, n).workers);
  }

  lemma InitialInv(seeds: seq<ModuleKey>, n: nat, reg: Registry)
    ensures Inv(Initial(seeds, n), seeds, reg)
  {
    InitialCoord(seeds, reg);
    InitialSized(seeds, n, reg);
    forall k
      ensures Balanced(Initial(seeds, n), k)
    {
      InitialBalanced(seeds, n, k);
    }
  }

  lemma ReceiveBalance(s: System, reg: Registry, k: ModuleKey)
    requires Enabled(s, Receive) && Balanced(s, k)
    ensures Balanced(After(s, Receive, reg), k)
  {
    var d := s.discoveries[0];
    if !d.failed {
      EnqueueAllBalance(Succeeded(s.c, d.key), d.deps, k);
      EnqueueAllGrows(Succeeded(s.c, d.key), d.deps);
    }
  }

  lemma WorkerBalance(s: System, step: Step, reg: Registry, k: ModuleKey)
    requires Enabled(s, step) && Balanced(s, k) && !step.SendJob? && !step.Receive?
    ensures Balanced(After(s, step, reg), k)
  {
    match step
    case Take(i) =>
      TimesHead(s.jobs, k);
      HeldUpdate(s.workers, i, Walking(s.jobs[0]), k);
    case Finish(i) =>
      HeldUpdate(s.workers, i, Sending(Discover(reg, s.workers[i].key)), k);
    case Deliver(i) =>
      HeldUpdate(s.workers, i, Idle, k);
      ReportedAppend(s.discoveries, s.workers[i].d, k);
  }

  lemma StepBalance(s: System, step: Step, reg: Registry, k: ModuleKey)
    requires Enabled(s, step) && Balanced(s, k)
    ensures Balanced(After(s, step, reg), k)
  {
    if step.SendJob? {
      TimesHead(s.c.pending, k);
    } else if step.Receive? {
      ReceiveBalance(s, reg, k);
    } else {
      WorkerBalance(s, step, reg, k);
    }
  }

  lemma StepSized(s: System, step: Step, reg: Registry)
    requires Enabled(s, step) && Sized(s)
    ensures Sized(After(s, step, reg))
  {
    match step
    case SendJob =>
    case Receive =>
      var d := s.discoveries[0];
      EnqueueAllGrows(Succeeded(s.c, d.key), d.deps);
    case Take(i) => BusyUpdate(s.workers, i, Walking(s.jobs[0]));
    case Finish(i) => BusyUpdate(s.workers, i, Sending(Discover(reg, s.workers[i].key)));
    case Deliver(i) => BusyUpdate(s.workers, i, Idle);
  }

  lemma StepHonest(s: System, step: Step, reg: Registry)
    requires Enabled(s, step) && AllHonest(s, reg)
    ensures AllHonest(After(s, step, reg), reg)
  {
    var s' := After(s, step, reg);
    match step
    case SendJob =>
    case Receive =>
    case Take(i) =>
    case Finish(i) =>
      forall w | w in s'.workers && w.Sending?
        ensures Honest(w.d, reg)
      {
        assert w in s.workers || w == Sending(Discover(reg, s.workers[i].key));
      }
    case Deliver(i) =>
      assert s.workers[i] in s.workers;
  }

  lemma NextReported(s: System, seeds: seq<ModuleKey>, reg: Registry)
    requires Inv(s, seeds, reg) && s.discoveries != []
    ensures Honest(s.discoveries[0], reg) && s.discoveries[0].key in s.c.entered
  {
    var d := s.discoveries[0];
    assert d in s.discoveries;
    assert Balanced(s, d.key);
    TimesIn(s.c.entered, d.key);
  }

  /** Only Receive changes more of the coordinator than its pending queue. */
  lemma StepCoord(s: System, step: Step, seeds: seq<ModuleKey>, reg: Registry)
    requires CoordInv(s.c, seeds, reg) && SeedsEntered(s.c, seeds) && ReportsTrue(s.c, reg) && Enabled(s, step)
    requires step.Receive? ==> Honest(s.discoveries[0], reg) && s.discoveries[0].key in s.c.entered
    ensures var c' := After(s, step, reg).c; CoordInv(c', seeds, reg) && SeedsEntered(c', seeds) && ReportsTrue(c', reg)
  {
    if step.Receive? {
      HandledKeeps(s.c, s.discoveries[0], seeds, reg);
      HandledReports(s.c, s.discoveries[0], reg);
    }
  }

  lemma StepKeeps(s: System, step: Step, seeds: seq<ModuleKey>, reg: Registry)
    requires Inv(s, seeds, reg) && Enabled(s, step)
    ensures Inv(After(s, step, reg), seeds, reg)
  {
    if step.Receive? {
      NextReported(s, seeds, reg);
    }
    StepCoord(s, step, seeds, reg);
    StepHonest(s, step, reg);
    StepSized(s, step, reg);
    forall k
      ensures Balanced(After(s, step, reg), k)
    {
      StepBalance(s, step, reg, k);
    }
  }

  // ----- Progress: no deadlock, and every schedule is finite -----

  predicate HasIdle(ws: seq<Worker>) {
    exists i :: 0 <= i < |ws| && ws[i].Idle?
  }

  predicate HasWalking(ws: seq<Worker>) {
    exists i :: 0 <= i < |ws| && ws[i].Walking?
  }

  predicate HasSending(ws: seq<Worker>) {
    exists i :: 0 <= i < |ws| && ws[i].Sending?
  }

  /** While the walk runs, some goroutine can move. */
  lemma NoDeadlock(s: System)
    requires Sized(s) && s.c.inflight > 0 && |s.workers| > 0
    ensures exists step :: Enabled(s, step)
  {
    SomeoneMoves(s);
    if s.discoveries != [] {
      assert Enabled(s, Receive);
    } else if s.c.pending != [] && |s.jobs| < Capacity(s) {
      assert Enabled(s, SendJob);
    } else if i :| 0 <= i < |s.workers| && s.workers[i].Walking? {
      assert Enabled(s, Finish(i));
    } else if i :| 0 <= i < |s.workers| && s.workers[i].Sending? {
      assert Enabled(s, Deliver(i));
    } else {
      assert Enabled(s, Take(0));
    }
  }

  lemma SomeoneMoves(s: System)
    requires Sized(s) && s.c.inflight > 0 && |s.workers| > 0
    ensures || (s.c.pending != [] && |s.jobs| < Capacity(s))
            || s.discoveries != []
            || (s.jobs != [] && HasIdle(s.workers))
            || HasWalking(s.workers)
            || (|s.discoveries| < Capacity(s) && HasSending(s.workers))
  {
    BusyIdle(s.workers);
    var w := s.workers[0];
    if !HasWalking(s.workers) && !HasSending(s.workers) {
      forall w | w in s.workers
        ensures w.Idle?
      {
        var i :| 0 <= i < |s.workers| && s.workers[i] == w;
      }
      assert s.workers[0].Idle?;
    }
  }

  ghost predicate Universe(u: set<ModuleKey>, seeds: seq<ModuleKey>, reg: Registry) {
    Contains(seeds, u) && Closed(reg, u)
  }

  ghost function Unvisited(u: set<ModuleKey>, visited: set<string>): set<ModuleKey> {
    set k | k in u && VisitKey(k) !in visited
  }

  function Weight(w: Worker): nat {
    match w
    case Idle => 0
    case Walking(_) => 3
    case Sending(_) => 2
  }

  function Weights(ws: seq<Worker>): nat {
    if ws == [] then 0 else Weights(ws[..|ws| - 1]) + Weight(ws[|ws| - 1])
  }

  ghost function CoordMeasure(u: set<ModuleKey>, c: Coord): nat {
    6 * |Unvisited(u, c.visited)| + 5 * |c.pending|
  }

  /** Each key costs less the further it has travelled from unvisited to handled. */
  ghost function Measure(u: set<ModuleKey>, s: System): nat {
    CoordMeasure(u, s.c) + 4 * |s.jobs| + Weights(s.workers) + |s.discoveries|
  }

  lemma {:induction false} WeightsUpdate(ws: seq<Worker>, i: nat, w: Worker)
    requires i < |ws|
    ensures Weights(ws[i := w]) == Weights(ws) - Weight(ws[i]) + Weight(w)
  {
    var n := |ws| - 1;
    if i == n {
      assert ws[i := w][..n] == ws[..n];
    } else {
      WeightsUpdate(ws[..n], i, w);
      assert ws[i := w][..n] == ws[..n][i := w];
    }
  }

  lemma {:induction false} EnqueueAllCost(u: set<ModuleKey>, c: Coord, ks: seq<ModuleKey>)
    requires forall k | k in ks :: k in u
    ensures CoordMeasure(u, EnqueuedAll(c, ks)) <= CoordMeasure(u, c)
    decreases |ks|
  {
    if ks != [] {
      var k := ks[0];
      var c' := Enqueued(c, k);
      if VisitKey(k) !in c.visited {
        SubsetSize(Unvisited(u, c'.visited), Unvisited(u, c.visited) - {k});
      }
      EnqueueAllCost(u, c', ks[1..]);
    }
  }

  lemma DepsIn(reg: Registry, d: Discovery, u: set<ModuleKey>)
    requires Closed(reg, u) && d.key in u && Honest(d, reg)
    ensures forall k | k in d.deps :: k in u
  {
    forall k | k in d.deps
      ensures k in u
    {
      DiscoverExact(reg, d.key, k);
    }
  }

  /** Every step of every goroutine strictly lowers the measure. */
  lemma StepDecreases(s: System, step: Step, seeds: seq<ModuleKey>, reg: Registry, u: set<ModuleKey>)
    requires Inv(s, seeds, reg) && Enabled(s, step) && Universe(u, seeds, reg)
    ensures Measure(u, After(s, step, reg)) < Measure(u, s)
  {
    match step
    case SendJob =>
    case Receive =>
      var d := s.discoveries[0];
      NextReported(s, seeds, reg);
      ReachableIn(seeds, reg, d.key, u);
      DepsIn(reg, d, u);
      EnqueueAllCost(u, Succeeded(s.c, d.key), d.deps);
    case Take(i) => WeightsUpdate(s.workers, i, Walking(s.jobs[0]));
    case Finish(i) => WeightsUpdate(s.workers, i, Sending(Discover(reg, s.workers[i].key)));
    case Deliver(i) => WeightsUpdate(s.workers, i, Idle);
  }

  lemma {:induction false} ScheduleKeeps(s: System, steps: seq<Step>, seeds: seq<ModuleKey>, reg: Registry)
    requires Inv(s, seeds, reg) && Schedule(s, steps, reg)
    ensures Inv(Execute(s, steps, reg), seeds, reg)
    ensures |Execute(s, steps, reg).workers| == |s.workers|
    decreases |steps|
  {
    if steps != [] {
      StepKeeps(s, steps[0], seeds, reg);
      ScheduleKeeps(After(s, steps[0], reg), steps[1..], seeds, reg);
    }
  }

  lemma {:induction false} ScheduleIsShort(s: System, steps: seq<Step>, seeds: seq<ModuleKey>, reg: Registry, u: set<ModuleKey>)
    requires Inv(s, seeds, reg) && Schedule(s, steps, reg) && Universe(u, seeds, reg)
    ensures |steps| + Measure(u, Execute(s, steps, reg)) <= Measure(u, s)
    decreases |steps|
  {
    if steps != [] {
      StepKeeps(s, steps[0], seeds, reg);
      StepDecreases(s, steps[0], seeds, reg, u);
      ScheduleIsShort(After(s, steps[0], reg), steps[1..], seeds, reg, u);
    }
  }

  /** While a walk over a finite universe runs, it is never stuck and never endless: every
      schedule is at most as long as the starting measure, and one that still has work in
      flight can be continued. */
  lemma EverySchedule(seeds: seq<ModuleKey>, n: nat, reg: Registry, u: set<ModuleKey>, steps: seq<Step>)
    requires n > 0 && Universe(u, seeds, reg) && Schedule(Initial(seeds, n), steps, reg)
    ensures |steps| <= Measure(u, Initial(seeds, n))
    ensures var s := Execute(Initial(seeds, n), steps, reg);
            s.c.inflight > 0 ==> exists step :: Enabled(s, step)
  {
    InitialInv(seeds, n, reg);
    ScheduleIsShort(Initial(seeds, n), steps, seeds, reg, u);
    ScheduleKeeps(Initial(seeds, n), steps, seeds, reg);
    var s := Execute(Initial(seeds, n), steps, reg);
    if s.c.inflight > 0 {
      NoDeadlock(s);
    }
  }

  /** The bookkeeping that the loop test relies on, at every point of every schedule:
      `inflight` counts the keys that are pending, queued, being walked or waiting to be
      handled, so it is zero only when both channels are empty and every worker is idle. */
  lemma InflightCounts(seeds: seq<ModuleKey>, n: nat, reg: Registry, steps: seq<Step>)
    requires Schedule(Initial(seeds, n), steps, reg)
    ensures var s := Execute(Initial(seeds, n), steps, reg);
            && s.c.inflight == |s.c.pending| + |s.jobs| + Busy(s.workers) + |s.discoveries|
            && s.c.inflight == s.c.visitedCount - s.c.mirrored - |s.c.errors|
            && (s.c.inflight == 0 <==>
                s.c.pending == [] && s.jobs == [] && s.discoveries == [] && forall w | w in s.workers :: w.Idle?)
  {
    InitialInv(seeds, n, reg);
    ScheduleKeeps(Initial(seeds, n), steps, seeds, reg);
    BusyIdle(Execute(Initial(seeds, n), steps, reg).workers);
  }

  /** Neither channel ever holds more than two items for each worker. */
  lemma ChannelsBounded(seeds: seq<ModuleKey>, n: nat, reg: Registry, steps: seq<Step>)
    requires Schedule(Initial(seeds, n), steps, reg)
    ensures var s := Execute(Initial(seeds, n), steps, reg);
            |s.workers| == n && |s.jobs| <= 2 * n && |s.discoveries| <= 2 * n
  {
    InitialInv(seeds, n, reg);
    ScheduleKeeps(Initial(seeds, n), steps, seeds, reg);
  }

  // ----- What a finished walk has done -----

  /** A state in which the select loop has ended. */
  ghost predicate Finished(s: System, seeds: seq<ModuleKey>, reg: Registry) {
    Inv(s, seeds, reg) && s.c.inflight == 0
  }

  ghost function Walked(s: System): set<ModuleKey> {
    set k | k in s.walks
  }

  /** Key k was walked as often as it was entered, at most once, and is reported as done or as
      an error according to the outcome of its walk. */
  lemma Outcomes(s: System, seeds: seq<ModuleKey>, reg: Registry, k: ModuleKey)
    requires Finished(s, seeds, reg)
    ensures Times(s.walks, k) == Times(s.c.entered, k) == if k in s.c.entered then 1 else 0
    ensures Times(s.c.done, k) == if k in s.c.entered && reg(k).ModuleFile? then 1 else 0
    ensures Times(s.c.errors, k) == if k in s.c.entered && reg(k).FetchFailed? then 1 else 0
  {
    BusyIdle(s.workers);
    HeldIdle(s.workers, k);
    assert Balanced(s, k);
    DistinctOnce(s.c.entered, k);
    TimesIn(s.c.entered, k);
    TimesIn(s.c.done, k);
    TimesIn(s.c.errors, k);
  }

  lemma {:induction false} DistinctOnce(ks: seq<ModuleKey>, k: ModuleKey)
    requires Distinct(ks)
    ensures Times(ks, k) <= 1
  {
    if ks != [] {
      TimesHead(ks, k);
      forall i, j | 0 <= i < j < |ks[1..]|
        ensures VisitKey(ks[1..][i]) != VisitKey(ks[1..][j])
      {
        assert ks[1..][i] == ks[i + 1] && ks[1..][j] == ks[j + 1];
      }
      DistinctOnce(ks[1..], k);
      TimesIn(ks[1..], k);
      assert forall i | 0 < i < |ks| :: ks[i] != ks[0];
      assert ks[0] !in ks[1..];
    }
  }

  lemma WalkedIsEntered(s: System, seeds: seq<ModuleKey>, reg: Registry, k: ModuleKey)
    requires Finished(s, seeds, reg)
    ensures k in Walked(s) <==> k in s.c.entered
    ensures k in s.c.done <==> k in s.c.entered && reg(k).ModuleFile?
    ensures k in s.c.errors <==> k in s.c.entered && reg(k).FetchFailed?
  {
    Outcomes(s, seeds, reg, k);
    TimesIn(s.walks, k);
    TimesIn(s.c.done, k);
    TimesIn(s.c.errors, k);
  }

  /** A string in `visited` stands for a walked key, and no other when strings are not shared. */
  lemma VisitedWalked(s: System, seeds: seq<ModuleKey>, reg: Registry, k: ModuleKey)
    requires Finished(s, seeds, reg) && InjectiveOnReachable(seeds, reg)
    requires Reachable(seeds, reg, k) && VisitKey(k) in s.c.visited
    ensures k in Walked(s)
  {
    var l :| l in s.c.entered && VisitKey(l) == VisitKey(k);
    assert Reachable(seeds, reg, l);
    WalkedIsEntered(s, seeds, reg, k);
  }

  lemma DepWalked(s: System, seeds: seq<ModuleKey>, reg: Registry, k: ModuleKey, dep: ModuleKey)
    requires Finished(s, seeds, reg) && InjectiveOnReachable(seeds, reg)
    requires k in Walked(s) && DependsOn(reg, k, dep)
    ensures dep in Walked(s)
  {
    DiscoverExact(reg, k, dep);
    WalkedIsEntered(s, seeds, reg, k);
    DepReachable(seeds, reg, k, dep);
    VisitedWalked(s, seeds, reg, dep);
  }

  lemma WalkedClosed(s: System, seeds: seq<ModuleKey>, reg: Registry)
    requires Finished(s, seeds, reg) && InjectiveOnReachable(seeds, reg)
    ensures Contains(seeds, Walked(s)) && Closed(reg, Walked(s))
  {
    var w := Walked(s);
    assert Contains(seeds, w) by {
      forall k | k in seeds
        ensures k in w
      {
        SeedReachable(seeds, reg, k);
        VisitedWalked(s, seeds, reg, k);
      }
    }
    assert Closed(reg, w) by {
      forall k, dep | k in w && DependsOn(reg, k, dep)
        ensures dep in w
      {
        DepWalked(s, seeds, reg, k, dep);
      }
    }
  }

  lemma SharedStringMissed(s: System, seeds: seq<ModuleKey>, reg: Registry, k: ModuleKey, l: ModuleKey)
    requires Finished(s, seeds, reg) && Contains(seeds, Walked(s)) && Closed(reg, Walked(s))
    requires Reachable(seeds, reg, k) && Reachable(seeds, reg, l) && VisitKey(k) == VisitKey(l)
    ensures k == l
  {
    ReachableIn(seeds, reg, k, Walked(s));
    ReachableIn(seeds, reg, l, Walked(s));
    WalkedIsEntered(s, seeds, reg, k);
    WalkedIsEntered(s, seeds, reg, l);
  }

  /** The result of a finished walk, exactly: the walked keys are the least set that holds the
      seeds and is closed under followed dependencies if and only if no two reachable keys
      share a "name@version" string. */
  lemma WalkIsLeastClosure(s: System, seeds: seq<ModuleKey>, reg: Registry)
    requires Finished(s, seeds, reg)
    ensures IsLeastClosure(seeds, reg, Walked(s)) <==> InjectiveOnReachable(seeds, reg)
  {
    if InjectiveOnReachable(seeds, reg) {
      WalkedClosed(s, seeds, reg);
      forall t: set<ModuleKey> | Contains(seeds, t) && Closed(reg, t)
        ensures Walked(s) <= t
      {
        forall k | k in Walked(s)
          ensures k in t
        {
          WalkedIsEntered(s, seeds, reg, k);
          ReachableIn(seeds, reg, k, t);
        }
      }
    }
    if IsLeastClosure(seeds, reg, Walked(s)) {
      forall k, l | Reachable(seeds, reg, k) && Reachable(seeds, reg, l) && VisitKey(k) == VisitKey(l)
        ensures k == l
      {
        SharedStringMissed(s, seeds, reg, k, l);
      }
    }
  }

  /** Bazel module names hold no '@', which rules the sharing out. */
  lemma NoAtSignInjective(k: ModuleKey, l: ModuleKey)
    requires '@' !in k.name && '@' !in l.name && VisitKey(k) == VisitKey(l)
    ensures k == l
  {
    FirstAtSign(k, l);
    FirstAtSign(l, k);
    var s := VisitKey(k);
    assert k.name == s[..|k.name|] && l.name == s[..|l.name|];
    assert k.version == s[|k.name| + 1..] && l.version == s[|l.name| + 1..];
  }

  lemma FirstAtSign(k: ModuleKey, l: ModuleKey)
    requires '@' !in l.name && VisitKey(k) == VisitKey(l)
    ensures |l.name| <= |k.name|
  {
    assert VisitKey(l)[|k.name|] == VisitKey(k)[|k.name|] == '@';
  }

  /** So where no module that is reachable has an '@' in its name, the walk is the least closure. */
  lemma NoAtSignClosure(s: System, seeds: seq<ModuleKey>, reg: Registry)
    requires Finished(s, seeds, reg) && forall k | Reachable(seeds, reg, k) :: '@' !in k.name
    ensures IsLeastClosure(seeds, reg, Walked(s))
  {
    forall k, l | Reachable(seeds, reg, k) && Reachable(seeds, reg, l) && VisitKey(k) == VisitKey(l)
      ensures k == l
    {
      NoAtSignInjective(k, l);
    }
    WalkIsLeastClosure(s, seeds, reg);
  }

  lemma CollisionMissesOne(s: System, seeds: seq<ModuleKey>, reg: Registry, k: ModuleKey, l: ModuleKey)
    requires Finished(s, seeds, reg) && k in seeds && l in seeds && k != l && VisitKey(k) == VisitKey(l)
    ensures !IsLeastClosure(seeds, reg, Walked(s))
  {
    SeedReachable(seeds, reg, k);
    SeedReachable(seeds, reg, l);
    if IsLeastClosure(seeds, reg, Walked(s)) {
      SharedStringMissed(s, seeds, reg, k, l);
    }
  }

  /** Without that, a walk can leave out a reachable module: these two keys are one to `visited`. */
  lemma AtSignCollides(s: System, reg: Registry)
    requires Finished(s, [ModuleKey("a", "b@c"), ModuleKey("a@b", "c")], reg)
    ensures !IsLeastClosure([ModuleKey("a", "b@c"), ModuleKey("a@b", "c")], reg, Walked(s))
  {
    SharedKey();
    var k, l := ModuleKey("a", "b@c"), ModuleKey("a@b", "c");
    CollisionMissesOne(s, [k, l], reg, k, l);
  }

  lemma SharedKey()
    ensures ModuleKey("a", "b@c") != ModuleKey("a@b", "c")
    ensures VisitKey(ModuleKey("a", "b@c")) == VisitKey(ModuleKey("a@b", "c"))
  {
    assert |"a"| != |"a@b"|;
    assert "a" + "@" + "b@c" == "a@b@c" == "a@b" + "@" + "c";
  }

  /** Two finished walks of one registry agree, whatever their worker counts and schedules. */
  lemma ScheduleIndependent(seeds: seq<ModuleKey>, reg: Registry, n: nat, m: nat, steps: seq<Step>, steps': seq<Step>)
    requires InjectiveOnReachable(seeds, reg)
    requires Schedule(Initial(seeds, n), steps, reg) && Schedule(Initial(seeds, m), steps', reg)
    requires Execute(Initial(seeds, n), steps, reg).c.inflight == 0
    requires Execute(Initial(seeds, m), steps', reg).c.inflight == 0
    ensures var s, t := Execute(Initial(seeds, n), steps, reg), Execute(Initial(seeds, m), steps', reg);
            && multiset(s.walks) == multiset(t.walks)
            && multiset(s.c.done) == multiset(t.c.done)
            && multiset(s.c.errors) == multiset(t.c.errors)
            && s.c.visitedCount == t.c.visitedCount
            && s.c.mirrored == t.c.mirrored
  {
    var s, t := Execute(Initial(seeds, n), steps, reg), Execute(Initial(seeds, m), steps', reg);
    InitialInv(seeds, n, reg);
    InitialInv(seeds, m, reg);
    ScheduleKeeps(Initial(seeds, n), steps, seeds, reg);
    ScheduleKeeps(Initial(seeds, m), steps', seeds, reg);
    WalkIsLeastClosure(s, seeds, reg);
    WalkIsLeastClosure(t, seeds, reg);
    SameWalks(s, t, seeds, reg);
  }

  lemma WalkOutcome(s: System, seeds: seq<ModuleKey>, reg: Registry, k: ModuleKey)
    requires Finished(s, seeds, reg)
    ensures Times(s.walks, k) == if k in Walked(s) then 1 else 0
    ensures Times(s.c.done, k) == if k in Walked(s) && reg(k).ModuleFile? then 1 else 0
    ensures Times(s.c.errors, k) == if k in Walked(s) && reg(k).FetchFailed? then 1 else 0
  {
    Outcomes(s, seeds, reg, k);
    WalkedIsEntered(s, seeds, reg, k);
  }

  lemma SameWalks(s: System, t: System, seeds: seq<ModuleKey>, reg: Registry)
    requires Finished(s, seeds, reg) && Finished(t, seeds, reg) && Walked(s) == Walked(t)
    ensures multiset(s.walks) == multiset(t.walks)
    ensures multiset(s.c.done) == multiset(t.c.done)
    ensures multiset(s.c.errors) == multiset(t.c.errors)
    ensures s.c.visitedCount == t.c.visitedCount
    ensures s.c.mirrored == t.c.mirrored
  {
    forall k
      ensures Times(s.walks, k) == Times(t.walks, k)
      ensures Times(s.c.done, k) == Times(t.c.done, k)
      ensures Times(s.c.errors, k) == Times(t.c.errors, k)
    {
      WalkOutcome(s, seeds, reg, k);
      WalkOutcome(t, seeds, reg, k);
    }
    SameTimes(s.walks, t.walks);
    SameTimes(s.c.done, t.c.done);
    SameTimes(s.c.errors, t.c.errors);
  }

  lemma SameTimes(a: seq<ModuleKey>, b: seq<ModuleKey>)
    requires forall k :: Times(a, k) == Times(b, k)
    ensures multiset(a) == multiset(b) && |a| == |b|
  {
    forall k
      ensures multiset(a)[k] == multiset(b)[k]
    {
      assert Times(a, k) == Times(b, k);
    }
    assert multiset(a) == multiset(b);
    assert |multiset(a)| == |a| && |multiset(b)| == |b|;
  }

  // ----- The walk itself -----

  datatype Result = Result(visited: nat, mirrored: nat, errors: seq<ModuleKey>)

  /** RecursiveFromRegistry.  Which goroutine moves next is left open at every turn of the
      loop, so what is proved here holds of every interleaving; that the alternatives are
      exhaustive is the absence of deadlock, and the decreasing measure is termination. */
  method RecursiveFromRegistry(workers: int, root: ModuleKey, tools: seq<ModuleKey>, reg: Registry, ghost u: set<ModuleKey>)
    returns (res: Result, walks: seq<ModuleKey>)
    requires Universe(u, [root] + tools, reg)
    ensures res.visited == res.mirrored + |res.errors| == |walks|
    ensures forall k | k in walks :: Times(walks, k) == 1
    ensures forall k :: k in res.errors <==> k in walks && reg(k).FetchFailed?
    ensures IsLeastClosure([root] + tools, reg, set k | k in walks) <==> InjectiveOnReachable([root] + tools, reg)
  {
    var n := if workers <= 0 then 8 else workers;
    ghost var seeds := [root] + tools;
    var jobs: seq<ModuleKey>, discoveries: seq<Discovery> := [], [];
    var pool: seq<Worker> := seq(n, _ => Idle);
    walks := [];
    var c := new Coordinator();
    c.Enqueue(root);
    c.EnqueueAll(tools);
    assert seeds[0] == root && seeds[1..] == tools;
    assert System(c.State(), jobs, pool, discoveries, walks) == Initial(seeds, n);
    InitialInv(seeds, n, reg);
    while c.inflight > 0
      invariant Inv(System(c.State(), jobs, pool, discoveries, walks), seeds, reg) && |pool| == n
      decreases Measure(u, System(c.State(), jobs, pool, discoveries, walks))
    {
      jobs, pool, discoveries, walks := Turn(c, jobs, pool, discoveries, walks, reg, seeds, u);
    }
    FinishedResult(System(c.State(), jobs, pool, discoveries, walks), seeds, reg);
    res := Result(c.visitedCount, c.mirrored, c.errors);
  }

  /** There is a move, it keeps the invariant, and it brings the walk closer to its end. */
  method Turn(c: Coordinator, jobs: seq<ModuleKey>, pool: seq<Worker>, discoveries: seq<Discovery>, walks: seq<ModuleKey>,
    reg: Registry, ghost seeds: seq<ModuleKey>, ghost u: set<ModuleKey>)
    returns (jobs': seq<ModuleKey>, pool': seq<Worker>, discoveries': seq<Discovery>, walks': seq<ModuleKey>)
    requires c.inflight > 0 && pool != [] && Universe(u, seeds, reg)
    requires Inv(System(c.State(), jobs, pool, discoveries, walks), seeds, reg)
    modifies c
    ensures |pool'| == |pool| && Inv(System(c.State(), jobs', pool', discoveries', walks'), seeds, reg)
    ensures Measure(u, System(c.State(), jobs', pool', discoveries', walks')) < Measure(u, System(old(c.State()), jobs, pool, discoveries, walks))
  {
    ghost var s := System(c.State(), jobs, pool, discoveries, walks);
    SomeoneMoves(s);
    ghost var step;
    jobs', pool', discoveries', walks', step := OneMoves(c, jobs, pool, discoveries, walks, reg);
    StepKeeps(s, step, seeds, reg);
    StepDecreases(s, step, seeds, reg, u);
  }

  /** One goroutine, any that can move, makes its move. */
  method OneMoves(c: Coordinator, jobs: seq<ModuleKey>, pool: seq<Worker>, discoveries: seq<Discovery>, walks: seq<ModuleKey>, reg: Registry)
    returns (jobs': seq<ModuleKey>, pool': seq<Worker>, discoveries': seq<Discovery>, walks': seq<ModuleKey>, ghost step: Step)
    requires c.inflight > 0
    requires || (c.pending != [] && |jobs| < 2 * |pool|)
             || discoveries != []
             || (jobs != [] && HasIdle(pool))
             || HasWalking(pool)
             || (|discoveries| < 2 * |pool| && HasSending(pool))
    modifies c
    ensures var s := System(old(c.State()), jobs, pool, discoveries, walks);
            Enabled(s, step) && After(s, step, reg) == System(c.State(), jobs', pool', discoveries', walks')
  {
    jobs', pool', discoveries', walks' := jobs, pool, discoveries, walks;
    if {
      case c.pending != [] && |jobs| < 2 * |pool| =>
        step := SendJob;
        var k := c.Dispatch();
        jobs' := jobs + [k];
      case discoveries != [] =>
        step := Receive;
        discoveries' := discoveries[1..];
        c.Handle(discoveries[0]);
      case jobs != [] && HasIdle(pool) =>
        var i :| 0 <= i < |pool| && pool[i].Idle?;
        step := Take(i);
        pool', walks', jobs' := pool[i := Walking(jobs[0])], walks + [jobs[0]], jobs[1..];
      case HasWalking(pool) =>
        var i :| 0 <= i < |pool| && pool[i].Walking?;
        step := Finish(i);
        var d := WalkOne(reg, pool[i].key);
        pool' := pool[i := Sending(d)];
      case |discoveries| < 2 * |pool| && HasSending(pool) =>
        var i :| 0 <= i < |pool| && pool[i].Sending?;
        step := Deliver(i);
        discoveries', pool' := discoveries + [pool[i].d], pool[i := Idle];
    }
  }

  lemma FinishedResult(s: System, seeds: seq<ModuleKey>, reg: Registry)
    requires Finished(s, seeds, reg)
    ensures forall k | k in s.walks :: Times(s.walks, k) == 1
    ensures forall k :: k in s.c.errors <==> k in s.walks && reg(k).FetchFailed?
    ensures IsLeastClosure(seeds, reg, set k | k in s.walks) <==> InjectiveOnReachable(seeds, reg)
  {
    WalkIsLeastClosure(s, seeds, reg);
    assert Walked(s) == set k | k in s.walks;
    forall k
      ensures k in s.walks ==> Times(s.walks, k) == 1
      ensures k in s.c.errors <==> k in s.walks && reg(k).FetchFailed?
    {
      Outcomes(s, seeds, reg, k);
      WalkedIsEntered(s, seeds, reg, k);
    }
  }
}
