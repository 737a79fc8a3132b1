/** The depth-capped breadth-first walk of internal/bzlhub/service_closure.go.

    A node is marked visited when it leaves the queue, not when it enters it, so
    one key can be queued and expanded several times.  The method below keeps
    that shape; the specification is about distances from the root and knows
    nothing of queues.  Keys are (name, version) pairs.
 */
module ClosureGraph {

  const CLOSURE_MAX_DEPTH: nat := 10

  datatype Key = Key(name: string, version: string)

  /** The persisted reports, reduced to the bazel_deps they list. */
  type Store = map<Key, seq<Key>>

  datatype Node = Node(key: Key, external: bool)

  datatype Edge = Edge(from: Key, to: Key)

  datatype Queued = Queued(key: Key, depth: nat)

  /** What is walked: the reports, the root, and the depth cap. */
  datatype Graph = Graph(store: Store, root: Key, cap: nat)

  predicate Stub(k: Key) {
    k.version == "" || k.version == "0"
  }

  function WithoutStubs(deps: seq<Key>): seq<Key> {
    if deps == [] then []
    else
      var rest := WithoutStubs(deps[..|deps| - 1]);
      if Stub(deps[|deps| - 1]) then rest else rest + [deps[|deps| - 1]]
  }

  /** A dependency edge of the graph: from a module with a report to a dependency that is no stub. */
  predicate IsDep(g: Graph, from: Key, to: Key) {
    from in g.store && to in g.store[from] && !Stub(to)
  }

  /** What the walk follows, and in what order: a report's entries with a version other than 0. */
  lemma FollowedExact(g: Graph, from: Key, to: Key)
    ensures IsDep(g, from, to) <==> from in g.store && to in g.store[from] && to.version != "" && to.version != "0"
    ensures to in Children(g, from) <==> IsDep(g, from, to)
  {
    if from in g.store {
      WithoutStubsExact(g.store[from]);
    }
  }

  /** An entry more, a child more unless it is a stub. */
  lemma ChildrenInOrder(deps: seq<Key>, k: Key)
    ensures WithoutStubs(deps + [k]) == WithoutStubs(deps) + if k.version == "" || k.version == "0" then [] else [k]
  {
    assert (deps + [k])[..|deps|] == deps;
  }

  lemma {:induction false} WithoutStubsExact(deps: seq<Key>)
    ensures forall k :: k in WithoutStubs(deps) <==> k in deps && !Stub(k)
  {
    if deps != [] {
      var n := |deps| - 1;
      WithoutStubsExact(deps[..n]);
      assert forall k :: k in deps <==> k in deps[..n] || k == deps[n];
    }
  }

  /** The dependencies the walk follows from k, in report order; none when k has no report. */
  function Children(g: Graph, k: Key): seq<Key> {
    if k in g.store then WithoutStubs(g.store[k]) else []
  }

  // ----- Distance from the root -----

  /** k is at most d dependency edges away from the root. */
  ghost predicate Within(g: Graph, k: Key, d: nat)
    decreases d
  {
    if d == 0 then k == g.root
    else Within(g, k, d - 1) || exists j :: Within(g, j, d - 1) && IsDep(g, j, k)
  }

  lemma {:induction false} WithinGrows(g: Graph, k: Key, d: nat, e: nat)
    requires d <= e && Within(g, k, d)
    ensures Within(g, k, e)
    decreases e
  {
    if d < e {
      WithinGrows(g, k, d, e - 1);
    }
  }

  ghost predicate AtDistance(g: Graph, k: Key, d: nat) {
    Within(g, k, d) && (d > 0 ==> !Within(g, k, d - 1))
  }

  lemma NoCloser(g: Graph, k: Key, d: nat, e: nat)
    requires AtDistance(g, k, d) && Within(g, k, e)
    ensures d <= e
  {
    if e < d {
      WithinGrows(g, k, e, d - 1);
    }
  }

  /** When no dependency leads out of the keys within d, they are the whole transitive closure. */
  lemma {:induction false} ClosedIsAll(g: Graph, d: nat, k: Key, e: nat)
    requires forall i, j | Within(g, i, d) && IsDep(g, i, j) :: Within(g, j, d)
    requires Within(g, k, e)
    ensures Within(g, k, d)
    decreases e
  {
    if e == 0 {
      WithinGrows(g, k, 0, d);
    } else if Within(g, k, e - 1) {
      ClosedIsAll(g, d, k, e - 1);
    } else {
      var j :| Within(g, j, e - 1) && IsDep(g, j, k);
      ClosedIsAll(g, d, j, e - 1);
    }
  }

  // ----- The walk as a function on its variables -----

  /** `dist` is not in the program: it records the depth at which a key was first dequeued. */
  datatype Bfs = Bfs(
    queue: seq<Queued>,
    visited: set<Key>,
    nodes: seq<Node>,
    edges: seq<Edge>,
    maxed: bool,
    dist: map<Key, nat>)

  function Start(root: Key): Bfs {
    Bfs([Queued(root, 0)], {}, [], [], false, map[])
  }

  function Visit(st: Bfs, cur: Queued): Bfs {
    if cur.key in st.visited then st
    else st.(visited := st.visited + {cur.key},
             nodes := st.nodes + [Node(cur.key, false)],
             dist := st.dist[cur.key := cur.depth])
  }

  function Flag(nodes: seq<Node>, k: Key): seq<Node> {
    seq(|nodes|, i requires 0 <= i < |nodes| => if nodes[i].key == k then Node(k, true) else nodes[i])
  }

  function EdgesTo(from: Key, ks: seq<Key>): seq<Edge> {
    seq(|ks|, i requires 0 <= i < |ks| => Edge(from, ks[i]))
  }

  function Pushes(visited: set<Key>, ks: seq<Key>, depth: nat): seq<Queued> {
    if ks == [] then []
    else
      var rest := Pushes(visited, ks[..|ks| - 1], depth);
      var k := ks[|ks| - 1];
      if k in visited then rest else rest + [Queued(k, depth)]
  }

  function Next(st: Bfs, g: Graph): Bfs
    requires st.queue != []
  {
    var cur := st.queue[0];
    var st1 := Visit(st.(queue := st.queue[1..]), cur);
    if cur.depth >= g.cap then st1.(maxed := true)
    else if cur.key !in g.store then st1.(nodes := Flag(st1.nodes, cur.key))
    else st1.(edges := st1.edges + EdgesTo(cur.key, Children(g, cur.key)),
              queue := st1.queue + Pushes(st1.visited, Children(g, cur.key), cur.depth + 1))
  }

  // ----- The same walk level by level -----

  /** The keys queued at one depth, with repetitions, and what is visited when the first of them
      leaves the queue. */
  datatype Level = Level(entries: seq<Key>, visited: set<Key>)

  function Unvisited(ks: seq<Key>, visited: set<Key>): seq<Key> {
    if ks == [] then []
    else
      var rest := Unvisited(ks[..|ks| - 1], visited);
      if ks[|ks| - 1] in visited then rest else rest + [ks[|ks| - 1]]
  }

  /** Entries are taken in order; each is visited and then queues those of its dependencies that are
      not visited yet. */
  function Scan(g: Graph, l: Level): Level
    decreases |l.entries|
  {
    if l.entries == [] then Level([], l.visited)
    else
      var n := |l.entries| - 1;
      var before := Scan(g, l.(entries := l.entries[..n]));
      var visited := before.visited + {l.entries[n]};
      Level(before.entries + Unvisited(Children(g, l.entries[n]), visited), visited)
  }

  function LevelAt(g: Graph, d: nat): Level {
    if d == 0 then Level([g.root], {}) else Scan(g, LevelAt(g, d - 1))
  }

  // ----- Invariant -----

  ghost predicate QueueInv(st: Bfs, g: Graph) {
    && (forall q | q in st.queue :: q.depth <= g.cap && Within(g, q.key, q.depth))
    && (forall i | 0 <= i < |st.queue| :: st.queue[0].depth <= st.queue[i].depth <= st.queue[0].depth + 1)
    && (forall i, j | 0 <= i < j < |st.queue| :: st.queue[i].depth <= st.queue[j].depth)
  }

  ghost function KeySet(nodes: seq<Node>): set<Key> {
    set i | 0 <= i < |nodes| :: nodes[i].key
  }

  ghost predicate NodeOrder(nodes: seq<Node>, dist: map<Key, nat>) {
    forall i, j | 0 <= i < j < |nodes| && nodes[i].key in dist && nodes[j].key in dist ::
      nodes[i].key != nodes[j].key && dist[nodes[i].key] <= dist[nodes[j].key]
  }

  predicate FlagRight(n: Node, dist: map<Key, nat>, g: Graph) {
    n.key in dist && (n.external <==> dist[n.key] < g.cap && n.key !in g.store)
  }

  ghost predicate NodeInv(st: Bfs, g: Graph) {
    && st.dist.Keys == st.visited
    && KeySet(st.nodes) == st.visited
    && NodeOrder(st.nodes, st.dist)
    && (forall i | 0 <= i < |st.nodes| :: FlagRight(st.nodes[i], st.dist, g))
  }

  ghost predicate DistInv(st: Bfs, g: Graph) {
    && st.dist.Keys == st.visited
    && (forall k | k in st.visited :: st.dist[k] <= g.cap && AtDistance(g, k, st.dist[k]))
    && (forall k, q | k in st.visited && q in st.queue :: st.dist[k] <= q.depth)
    && (forall q | q in st.queue && q.key in st.visited :: q.depth <= st.dist[q.key] + 1)
  }

  /** k has been, or will be, dequeued at depth d or less. */
  ghost predicate Due(st: Bfs, k: Key, d: nat) {
    || (k in st.visited && k in st.dist && st.dist[k] <= d)
    || exists q :: q in st.queue && q.key == k && q.depth <= d
  }

  ghost predicate DueInv(st: Bfs, g: Graph) {
    && st.dist.Keys == st.visited
    && Due(st, g.root, 0)
    && forall j, k | j in st.visited && st.dist[j] < g.cap && IsDep(g, j, k) :: Due(st, k, st.dist[j] + 1)
  }

  ghost predicate EdgeInv(st: Bfs, g: Graph) {
    && st.dist.Keys == st.visited
    && forall e: Edge :: e in st.edges <==> e.from in st.visited && st.dist[e.from] < g.cap && IsDep(g, e.from, e.to)
  }

  ghost predicate MaxedInv(st: Bfs, g: Graph) {
    && st.dist.Keys == st.visited
    && (forall k | k in st.visited && st.dist[k] == g.cap :: st.maxed)
    && (st.maxed ==> exists k :: k in st.visited && st.dist[k] + 1 >= g.cap)
  }

  ghost predicate Inv(st: Bfs, g: Graph) {
    && QueueInv(st, g) && NodeInv(st, g) && DistInv(st, g)
    && DueInv(st, g) && EdgeInv(st, g) && MaxedInv(st, g)
  }

  lemma StartInv(g: Graph)
    ensures Inv(Start(g.root), g)
  {
    assert Queued(g.root, 0) in Start(g.root).queue;
  }

  lemma {:induction false} PushesExact(visited: set<Key>, ks: seq<Key>, depth: nat)
    ensures forall q :: q in Pushes(visited, ks, depth) <==> q.depth == depth && q.key in ks && q.key !in visited
  {
    if ks != [] {
      var n := |ks| - 1;
      PushesExact(visited, ks[..n], depth);
      assert forall k :: k in ks <==> k in ks[..n] || k == ks[n];
    }
  }

  lemma EdgesToExact(from: Key, ks: seq<Key>)
    ensures forall e :: e in EdgesTo(from, ks) <==> e.from == from && e.to in ks
  {
    var es := EdgesTo(from, ks);
    forall e: Edge | e.from == from && e.to in ks
      ensures e in es
    {
      var i :| 0 <= i < |ks| && ks[i] == e.to;
      assert es[i] == e;
    }
  }

  /** The head of the queue is never deeper than a key that is still unvisited: everything
      closer to the root has been visited. */
  lemma {:induction false} CloserVisited(st: Bfs, g: Graph, e: nat)
    requires QueueInv(st, g) && DistInv(st, g) && DueInv(st, g) && e <= g.cap
    requires forall q | q in st.queue :: e < q.depth
    ensures forall k | Within(g, k, e) :: k in st.visited && st.dist[k] <= e
  {
    forall k | Within(g, k, e)
      ensures k in st.visited && st.dist[k] <= e
    {
      if e == 0 {
        assert Due(st, g.root, 0);
      } else {
        CloserVisited(st, g, e - 1);
        if !Within(g, k, e - 1) {
          var j :| Within(g, j, e - 1) && IsDep(g, j, k);
          assert Due(st, k, st.dist[j] + 1);
        }
      }
    }
  }

  /** So a key is first dequeued at its distance from the root. */
  lemma FirstAtDistance(st: Bfs, g: Graph)
    requires QueueInv(st, g) && DistInv(st, g) && DueInv(st, g)
    requires st.queue != [] && st.queue[0].key !in st.visited
    ensures AtDistance(g, st.queue[0].key, st.queue[0].depth)
  {
    var cur := st.queue[0];
    assert cur in st.queue;
    if cur.depth > 0 {
      CloserVisited(st, g, cur.depth - 1);
    }
  }

  function Visited(st: Bfs): Bfs
    requires st.queue != []
  {
    Visit(st.(queue := st.queue[1..]), st.queue[0])
  }

  function Pushed(st: Bfs, g: Graph): seq<Queued>
    requires st.queue != []
  {
    var cur := st.queue[0];
    if cur.depth >= g.cap || cur.key !in g.store then []
    else Pushes(Visited(st).visited, Children(g, cur.key), cur.depth + 1)
  }

  lemma NextShape(st: Bfs, g: Graph)
    requires st.queue != []
    ensures var st', cur := Next(st, g), st.queue[0];
            && st'.visited == st.visited + {cur.key}
            && st'.dist == (if cur.key in st.visited then st.dist else st.dist[cur.key := cur.depth])
            && st'.queue == st.queue[1..] + Pushed(st, g)
    ensures forall q :: q in Pushed(st, g) <==>
              && q.depth == st.queue[0].depth + 1 <= g.cap
              && IsDep(g, st.queue[0].key, q.key)
              && q.key !in st.visited + {st.queue[0].key}
  {
    var cur := st.queue[0];
    PushesExact(st.visited + {cur.key}, Children(g, cur.key), cur.depth + 1);
    if cur.key in g.store {
      WithoutStubsExact(g.store[cur.key]);
    }
  }

  lemma NextQueue(st: Bfs, g: Graph)
    requires QueueInv(st, g) && st.queue != []
    ensures QueueInv(Next(st, g), g)
  {
    NextShape(st, g);
    var st', cur := Next(st, g), st.queue[0];
    var n := |st.queue| - 1;
    assert cur in st.queue;
    forall q | q in st'.queue
      ensures q.depth <= g.cap && Within(g, q.key, q.depth)
    {
      if q !in st.queue {
        assert q in Pushed(st, g);
      }
    }
    forall i | 0 <= i < |st'.queue|
      ensures cur.depth <= st'.queue[i].depth <= cur.depth + 1
      ensures i >= n ==> st'.queue[i].depth == cur.depth + 1
    {
      if i < n {
        assert st'.queue[i] == st.queue[i + 1];
      } else {
        assert st'.queue[i] == Pushed(st, g)[i - n] && Pushed(st, g)[i - n] in Pushed(st, g);
      }
    }
    forall i, j | 0 <= i < j < |st'.queue|
      ensures st'.queue[i].depth <= st'.queue[j].depth
    {
      if j < n {
        assert st'.queue[i] == st.queue[i + 1] && st'.queue[j] == st.queue[j + 1];
      }
    }
  }

  /** What one turn does to what is visited, at which distance, and to what is queued. */
  ghost predicate Turn(st: Bfs, g: Graph, st': Bfs) {
    && st.queue != []
    && var cur := st.queue[0];
       && st'.visited == st.visited + {cur.key}
       && st'.dist == (if cur.key in st.visited then st.dist else st.dist[cur.key := cur.depth])
       && (forall q :: q in st'.queue <==> q in st.queue[1..] || PushedBy(st, g, q))
  }

  ghost predicate PushedBy(st: Bfs, g: Graph, q: Queued)
    requires st.queue != []
  {
    q.depth == st.queue[0].depth + 1 <= g.cap && IsDep(g, st.queue[0].key, q.key) && q.key !in st.visited + {st.queue[0].key}
  }

  lemma NextTurn(st: Bfs, g: Graph)
    requires st.queue != []
    ensures Turn(st, g, Next(st, g))
  {
    NextShape(st, g);
    forall q
      ensures q in Next(st, g).queue <==> q in st.queue[1..] || PushedBy(st, g, q)
    {
      assert q in Pushed(st, g) <==> PushedBy(st, g, q);
    }
  }

  lemma TurnQueue(st: Bfs, g: Graph, st': Bfs, q: Queued)
    requires QueueInv(st, g) && Turn(st, g, st') && q in st'.queue
    ensures st.queue[0].depth <= q.depth <= st.queue[0].depth + 1
    ensures q.key in st'.visited ==> q in st.queue
  {
    if q in st.queue[1..] {
      var i :| 0 <= i < |st.queue| && st.queue[i] == q;
    }
  }

  lemma TurnVisited(st: Bfs, g: Graph, st': Bfs, k: Key)
    requires QueueInv(st, g) && DistInv(st, g) && Turn(st, g, st') && k in st'.visited
    requires st.queue[0].key !in st.visited ==> AtDistance(g, st.queue[0].key, st.queue[0].depth)
    ensures k in st'.dist && st'.dist[k] <= g.cap && AtDistance(g, k, st'.dist[k]) && st'.dist[k] <= st.queue[0].depth
    ensures k in st.visited ==> st'.dist[k] == st.dist[k]
  {
    assert st.queue[0] in st.queue;
  }

  lemma TurnDist(st: Bfs, g: Graph, st': Bfs)
    requires QueueInv(st, g) && DistInv(st, g) && Turn(st, g, st')
    requires st.queue[0].key !in st.visited ==> AtDistance(g, st.queue[0].key, st.queue[0].depth)
    ensures DistInv(st', g)
  {
    forall k | k in st'.visited
      ensures k in st'.dist && st'.dist[k] <= g.cap && AtDistance(g, k, st'.dist[k]) && st'.dist[k] <= st.queue[0].depth
    {
      TurnVisited(st, g, st', k);
    }
    forall q | q in st'.queue
      ensures st.queue[0].depth <= q.depth
      ensures q.key in st'.visited && q.key in st'.dist ==> q.depth <= st'.dist[q.key] + 1
    {
      TurnQueue(st, g, st', q);
      if q.key in st'.visited {
        TurnVisited(st, g, st', q.key);
      }
    }
  }

  lemma NextDist(st: Bfs, g: Graph)
    requires QueueInv(st, g) && DistInv(st, g) && DueInv(st, g) && st.queue != []
    ensures DistInv(Next(st, g), g)
  {
    NextTurn(st, g);
    if st.queue[0].key !in st.visited {
      FirstAtDistance(st, g);
    }
    TurnDist(st, g, Next(st, g));
  }

  lemma DueStays(st: Bfs, g: Graph, st': Bfs, k: Key, d: nat)
    requires DistInv(st, g) && Turn(st, g, st') && Due(st, k, d)
    ensures Due(st', k, d)
  {
    var cur := st.queue[0];
    if k in st.visited && st.dist[k] <= d {
    } else {
      var q :| q in st.queue && q.key == k && q.depth <= d;
      if q == cur {
        assert cur in st.queue;
        assert k in st'.visited && st'.dist[k] <= d;
      } else {
        assert q in st.queue[1..];
        assert q in st'.queue;
      }
    }
  }

  lemma TurnDue(st: Bfs, g: Graph, st': Bfs, j: Key, k: Key)
    requires DistInv(st, g) && DueInv(st, g) && Turn(st, g, st')
    requires j in st'.visited && j in st'.dist && st'.dist[j] < g.cap && IsDep(g, j, k)
    ensures Due(st', k, st'.dist[j] + 1)
  {
    var cur := st.queue[0];
    assert cur in st.queue;
    if j in st.visited {
      assert Due(st, k, st.dist[j] + 1);
      DueStays(st, g, st', k, st.dist[j] + 1);
    } else if k !in st'.visited {
      assert PushedBy(st, g, Queued(k, cur.depth + 1));
      assert Queued(k, cur.depth + 1) in st'.queue;
    }
  }

  lemma NextDue(st: Bfs, g: Graph)
    requires DistInv(st, g) && DueInv(st, g) && st.queue != []
    ensures DueInv(Next(st, g), g)
  {
    var st' := Next(st, g);
    NextTurn(st, g);
    DueStays(st, g, st', g.root, 0);
    forall j, k | j in st'.visited && st'.dist[j] < g.cap && IsDep(g, j, k)
      ensures Due(st', k, st'.dist[j] + 1)
    {
      TurnDue(st, g, st', j, k);
    }
  }

  /** Everything visited is at most as far away as the head of the queue. */
  ghost predicate HeadIsFurthest(st: Bfs) {
    && st.queue != []
    && st.dist.Keys == st.visited
    && forall k | k in st.visited :: st.dist[k] <= st.queue[0].depth
  }

  lemma VisitedNodes(st: Bfs)
    requires HeadIsFurthest(st) && KeySet(st.nodes) == st.visited && NodeOrder(st.nodes, st.dist)
    ensures KeySet(Visited(st).nodes) == Visited(st).visited
    ensures NodeOrder(Visited(st).nodes, Visited(st).dist)
  {
    var st1, cur := Visited(st), st.queue[0];
    if cur.key !in st.visited {
      var n := |st.nodes|;
      assert forall i | 0 <= i < n :: st1.nodes[i] == st.nodes[i] && st.nodes[i].key in KeySet(st.nodes);
      KeySetGrows(st.nodes, Node(cur.key, false));
    }
  }

  lemma KeySetGrows(nodes: seq<Node>, n: Node)
    ensures KeySet(nodes + [n]) == KeySet(nodes) + {n.key}
  {
    var all := nodes + [n];
    assert all[|nodes|] == n;
    forall k | k in KeySet(nodes)
      ensures k in KeySet(all)
    {
      var i :| 0 <= i < |nodes| && nodes[i].key == k;
      assert all[i] == nodes[i];
    }
  }

  /** Whichever branch is taken, the node of the dequeued key ends with the right flag, also
      when the key was dequeued before. */
  lemma NextFlag(st: Bfs, g: Graph, i: nat)
    requires st.queue != [] && i < |Visited(st).nodes| && st.dist.Keys == st.visited
    requires st.queue[0].key in st.visited ==> st.dist[st.queue[0].key] <= st.queue[0].depth
    requires i < |st.nodes| ==> FlagRight(st.nodes[i], st.dist, g)
    ensures |Next(st, g).nodes| == |Visited(st).nodes|
    ensures Next(st, g).nodes[i].key == Visited(st).nodes[i].key
    ensures FlagRight(Next(st, g).nodes[i], Next(st, g).dist, g)
  {
    if i < |st.nodes| {
      assert Visited(st).nodes[i] == st.nodes[i];
    }
  }

  lemma NextNodes(st: Bfs, g: Graph)
    requires NodeInv(st, g) && HeadIsFurthest(st)
    ensures NodeInv(Next(st, g), g)
  {
    VisitedNodes(st);
    NextFlags(st, g);
    NextShape(st, g);
    NodesFrom(Next(st, g), Visited(st), g);
  }

  lemma NodesFrom(st: Bfs, st1: Bfs, g: Graph)
    requires st.dist.Keys == st.visited && st.visited == st1.visited && st.dist == st1.dist
    requires KeySet(st1.nodes) == st1.visited && NodeOrder(st1.nodes, st1.dist)
    requires |st.nodes| == |st1.nodes| && forall i | 0 <= i < |st.nodes| :: st.nodes[i].key == st1.nodes[i].key
    requires forall i | 0 <= i < |st.nodes| :: FlagRight(st.nodes[i], st.dist, g)
    ensures NodeInv(st, g)
  {
    SameKeys(st1.nodes, st.nodes, st1.dist);
  }

  lemma NextFlags(st: Bfs, g: Graph)
    requires st.queue != [] && st.dist.Keys == st.visited
    requires st.queue[0].key in st.visited ==> st.dist[st.queue[0].key] <= st.queue[0].depth
    requires forall i | 0 <= i < |st.nodes| :: FlagRight(st.nodes[i], st.dist, g)
    ensures var ns, ns1 := Next(st, g).nodes, Visited(st).nodes;
            && |ns| == |ns1|
            && (forall i | 0 <= i < |ns| :: ns[i].key == ns1[i].key)
            && (forall i | 0 <= i < |ns| :: FlagRight(ns[i], Next(st, g).dist, g))
  {
    forall i | 0 <= i < |Visited(st).nodes| {
      NextFlag(st, g, i);
    }
  }

  lemma SameKeys(a: seq<Node>, b: seq<Node>, dist: map<Key, nat>)
    requires NodeOrder(a, dist)
    requires |a| == |b| && forall i | 0 <= i < |a| :: a[i].key == b[i].key
    ensures KeySet(b) == KeySet(a) && NodeOrder(b, dist)
  {
    forall k
      ensures k in KeySet(a) <==> k in KeySet(b)
    {
      if k in KeySet(a) {
        var i :| 0 <= i < |a| && a[i].key == k;
        assert b[i].key == k;
      }
    }
  }

  lemma NextEdges(st: Bfs, g: Graph)
    requires EdgeInv(st, g) && DistInv(st, g) && st.queue != []
    ensures EdgeInv(Next(st, g), g)
  {
    NextShape(st, g);
    var cur := st.queue[0];
    assert cur in st.queue;
    EdgesToExact(cur.key, Children(g, cur.key));
    if cur.key in g.store {
      WithoutStubsExact(g.store[cur.key]);
    }
  }

  lemma NextMaxed(st: Bfs, g: Graph)
    requires MaxedInv(st, g) && DistInv(st, g) && st.queue != []
    ensures MaxedInv(Next(st, g), g)
  {
    NextShape(st, g);
    var cur := st.queue[0];
    assert cur in st.queue;
    if cur.depth >= g.cap {
      assert cur.key in Next(st, g).visited && Next(st, g).dist[cur.key] + 1 >= g.cap;
    } else if st.maxed {
      var k :| k in st.visited && st.dist[k] + 1 >= g.cap;
      assert k in Next(st, g).visited && Next(st, g).dist[k] == st.dist[k];
    }
  }

  lemma NextInv(st: Bfs, g: Graph)
    requires Inv(st, g) && st.queue != []
    ensures Inv(Next(st, g), g)
  {
    assert st.queue[0] in st.queue;
    NextQueue(st, g);
    NextDist(st, g);
    NextDue(st, g);
    NextNodes(st, g);
    NextEdges(st, g);
    NextMaxed(st, g);
  }

  // ----- The queue holds what is left of a level and what is known of the next -----

  function Queue(ks: seq<Key>, d: nat): seq<Queued> {
    seq(|ks|, i requires 0 <= i < |ks| => Queued(ks[i], d))
  }

  /** i entries of level d have left the queue. */
  ghost predicate AtLevel(st: Bfs, g: Graph, d: nat, i: nat) {
    var l := LevelAt(g, d);
    && d <= g.cap && i <= |l.entries|
    && var done := Scan(g, l.(entries := l.entries[..i]));
       && st.visited == done.visited
       && st.queue == Queue(l.entries[i..], d) + (if d < g.cap then Queue(done.entries, d + 1) else [])
       && (st.maxed <==> d == g.cap && i > 0)
  }

  lemma StartLevel(g: Graph)
    ensures AtLevel(Start(g.root), g, 0, 0)
  {
    assert [g.root][0..] == [g.root] && [g.root][..0] == [];
  }

  lemma {:induction false} PushesUnvisited(visited: set<Key>, ks: seq<Key>, d: nat)
    ensures Pushes(visited, ks, d) == Queue(Unvisited(ks, visited), d)
  {
    if ks != [] {
      PushesUnvisited(visited, ks[..|ks| - 1], d);
    }
  }

  lemma ScanMore(g: Graph, l: Level, i: nat)
    requires i < |l.entries|
    ensures var done, more := Scan(g, l.(entries := l.entries[..i])), Scan(g, l.(entries := l.entries[..i + 1]));
            && more.visited == done.visited + {l.entries[i]}
            && more.entries == done.entries + Unvisited(Children(g, l.entries[i]), more.visited)
  {
    assert l.entries[..i + 1][..i] == l.entries[..i];
  }

  /** A level that has left the queue makes way for the next one. */
  lemma LevelOver(st: Bfs, g: Graph, d: nat)
    requires AtLevel(st, g, d, |LevelAt(g, d).entries|) && d < g.cap
    ensures AtLevel(st, g, d + 1, 0)
  {
    var l := LevelAt(g, d);
    assert l.entries[..|l.entries|] == l.entries && l.(entries := l.entries[..|l.entries|]) == l;
    var l' := LevelAt(g, d + 1);
    assert l' == Scan(g, l) && l'.entries[0..] == l'.entries && l'.entries[..0] == [];
    assert Queue(l.entries[|l.entries|..], d) == [];
  }

  lemma NextEntry(st: Bfs, g: Graph, d: nat, i: nat)
    requires AtLevel(st, g, d, i) && i < |LevelAt(g, d).entries|
    ensures st.queue != [] && AtLevel(Next(st, g), g, d, i + 1)
  {
    var l := LevelAt(g, d);
    var cur := Queued(l.entries[i], d);
    QueueFront(l.entries, i, d);
    ScanMore(g, l, i);
    if d < g.cap {
      EntryBelowCap(st, g, l, d, i);
    } else {
      HeadAndTail(cur, Queue(l.entries[i + 1..], d), []);
      NextQueued(st, g, cur);
    }
  }

  lemma EntryBelowCap(st: Bfs, g: Graph, l: Level, d: nat, i: nat)
    requires i < |l.entries| && d < g.cap
    requires var done := Scan(g, l.(entries := l.entries[..i]));
             st.visited == done.visited && st.queue == [Queued(l.entries[i], d)] + Queue(l.entries[i + 1..], d) + Queue(done.entries, d + 1)
    ensures var more := Scan(g, l.(entries := l.entries[..i + 1]));
            && Next(st, g).visited == more.visited && Next(st, g).maxed == st.maxed
            && Next(st, g).queue == Queue(l.entries[i + 1..], d) + Queue(more.entries, d + 1)
  {
    var done, more := Scan(g, l.(entries := l.entries[..i])), Scan(g, l.(entries := l.entries[..i + 1]));
    var cur, left, known := Queued(l.entries[i], d), Queue(l.entries[i + 1..], d), Queue(done.entries, d + 1);
    HeadAndTail(cur, left, known);
    NextQueued(st, g, cur);
    ScanMore(g, l, i);
    PushesUnvisited(more.visited, Children(g, cur.key), d + 1);
    QueueAppend(done.entries, Unvisited(Children(g, cur.key), more.visited), d + 1);
    Regroup(left, known, Pushes(more.visited, Children(g, cur.key), d + 1));
  }

  lemma Regroup(a: seq<Queued>, b: seq<Queued>, c: seq<Queued>)
    ensures (a + b) + c == a + (b + c)
  {
  }

  lemma QueueFront(ks: seq<Key>, i: nat, d: nat)
    requires i < |ks|
    ensures Queue(ks[i..], d) == [Queued(ks[i], d)] + Queue(ks[i + 1..], d)
  {
  }

  lemma HeadAndTail(cur: Queued, left: seq<Queued>, rest: seq<Queued>)
    ensures ([cur] + left + rest)[0] == cur && ([cur] + left + rest)[1..] == left + rest
  {
  }

  /** What a turn does to the variables that AtLevel speaks of. */
  lemma NextQueued(st: Bfs, g: Graph, cur: Queued)
    requires st.queue != [] && st.queue[0] == cur
    ensures Next(st, g).visited == st.visited + {cur.key}
    ensures Next(st, g).maxed == (st.maxed || cur.depth >= g.cap)
    ensures Next(st, g).queue == st.queue[1..] + if cur.depth >= g.cap then [] else Pushes(st.visited + {cur.key}, Children(g, cur.key), cur.depth + 1)
  {
    assert cur.key !in g.store ==> Pushes(st.visited + {cur.key}, Children(g, cur.key), cur.depth + 1) == [];
    assert st.queue[1..] + [] == st.queue[1..];
    assert cur.key in st.visited ==> st.visited + {cur.key} == st.visited;
  }

  lemma QueueAppend(a: seq<Key>, b: seq<Key>, d: nat)
    ensures Queue(a + b, d) == Queue(a, d) + Queue(b, d)
  {
  }

  lemma NextLevel(st: Bfs, g: Graph, d: nat, i: nat) returns (d': nat, i': nat)
    requires AtLevel(st, g, d, i) && st.queue != []
    ensures AtLevel(Next(st, g), g, d', i')
  {
    if i < |LevelAt(g, d).entries| {
      NextEntry(st, g, d, i);
      d', i' := d, i + 1;
    } else {
      LevelOver(st, g, d);
      NextEntry(st, g, d + 1, 0);
      d', i' := d + 1, 1;
    }
  }

  lemma {:induction false} EmptyFrom(g: Graph, d: nat, e: nat)
    requires d <= e && LevelAt(g, d).entries == []
    ensures LevelAt(g, e).entries == []
  {
    if d < e {
      EmptyFrom(g, d, e - 1);
    }
  }

  lemma EndLevel(st: Bfs, g: Graph, d: nat, i: nat)
    requires AtLevel(st, g, d, i) && st.queue == []
    ensures st.maxed <==> LevelAt(g, g.cap).entries != []
  {
    var l := LevelAt(g, d);
    assert |Queue(l.entries[i..], d)| == 0 && i == |l.entries|;
    if d < g.cap {
      LevelOver(st, g, d);
      assert |Queue(LevelAt(g, d + 1).entries[0..], d + 1)| == 0;
      EmptyFrom(g, d + 1, g.cap);
    }
  }

  // ----- Termination: a queued key at depth d stands for at most b^(cap-d) dequeues -----

  function Pow(b: nat, n: nat): nat {
    if n == 0 then 1 else b * Pow(b, n - 1)
  }

  function Load(queue: seq<Queued>, b: nat, cap: nat): nat {
    if queue == [] then 0
    else Pow(b, if queue[0].depth <= cap then cap - queue[0].depth else 0) + Load(queue[1..], b, cap)
  }

  lemma {:induction false} LoadAppend(p: seq<Queued>, q: seq<Queued>, b: nat, cap: nat)
    ensures Load(p + q, b, cap) == Load(p, b, cap) + Load(q, b, cap)
  {
    if p == [] {
      assert p + q == q;
    } else {
      LoadAppend(p[1..], q, b, cap);
      assert (p + q)[1..] == p[1..] + q;
    }
  }

  lemma {:induction false} LoadOfEqualDepth(q: seq<Queued>, d: nat, b: nat, cap: nat)
    requires forall x | x in q :: x.depth == d
    requires d <= cap
    ensures Load(q, b, cap) == |q| * Pow(b, cap - d)
  {
    if q != [] {
      assert q[0] in q;
      LoadOfEqualDepth(q[1..], d, b, cap);
    }
  }

  lemma {:induction false} PushesFew(visited: set<Key>, ks: seq<Key>, depth: nat)
    ensures |Pushes(visited, ks, depth)| <= |ks|
  {
    if ks != [] {
      PushesFew(visited, ks[..|ks| - 1], depth);
    }
  }

  lemma {:induction false} PowPositive(b: nat, n: nat)
    requires b > 0
    ensures Pow(b, n) > 0
  {
    if n > 0 {
      PowPositive(b, n - 1);
    }
  }

  lemma LoadDrops(st: Bfs, g: Graph, b: nat)
    requires QueueInv(st, g) && st.queue != [] && b > 0
    requires forall k | k in g.store :: |Children(g, k)| < b
    ensures Load(Next(st, g).queue, b, g.cap) < Load(st.queue, b, g.cap)
  {
    var cur, pushed := st.queue[0], Pushed(st, g);
    assert cur in st.queue;
    NextShape(st, g);
    LoadAppend(st.queue[1..], pushed, b, g.cap);
    PushedLoad(st, g, b);
  }

  lemma PushedLoad(st: Bfs, g: Graph, b: nat)
    requires st.queue != [] && st.queue[0].depth <= g.cap && b > 0
    requires st.queue[0].key in g.store ==> |Children(g, st.queue[0].key)| < b
    ensures Load(Pushed(st, g), b, g.cap) < Pow(b, g.cap - st.queue[0].depth)
  {
    var cur, pushed := st.queue[0], Pushed(st, g);
    PowPositive(b, g.cap - cur.depth);
    if pushed != [] {
      PushesFew(Visited(st).visited, Children(g, cur.key), cur.depth + 1);
      PushesExact(Visited(st).visited, Children(g, cur.key), cur.depth + 1);
      LoadOfEqualDepth(pushed, cur.depth + 1, b, g.cap);
      PowPositive(b, g.cap - cur.depth - 1);
      MoreTimes(|pushed|, b, Pow(b, g.cap - cur.depth - 1));
    }
  }

  lemma MoreTimes(m: nat, n: nat, p: nat)
    requires m < n && p > 0
    ensures m * p < n * p
  {
  }

  lemma {:induction false} FanOut(g: Graph, ks: set<Key>) returns (b: nat)
    ensures b > 0 && forall k | k in ks :: |Children(g, k)| < b
  {
    b := 1;
    if ks != {} {
      var k :| k in ks;
      var b' := FanOut(g, ks - {k});
      b := b' + |Children(g, k)| + 1;
    }
  }

  // ----- The result -----

  datatype ClosureResult = ClosureResult(nodes: seq<Node>, edges: seq<Edge>, maxDepthReached: bool)

  /** Each key within `cap` edges of the root is a node once, nearest first, and external exactly
      when it is nearer than the cap and has no report. */
  ghost predicate NodesCorrect(g: Graph, nodes: seq<Node>) {
    && (forall k :: Within(g, k, g.cap) <==> exists i :: 0 <= i < |nodes| && nodes[i].key == k)
    && (forall i, j | 0 <= i < j < |nodes| :: nodes[i].key != nodes[j].key)
    && (forall i, j, d: nat | 0 <= i < j < |nodes| && Within(g, nodes[j].key, d) :: Within(g, nodes[i].key, d))
    && (forall i | 0 <= i < |nodes| ::
          nodes[i].external <==> g.cap > 0 && Within(g, nodes[i].key, g.cap - 1) && nodes[i].key !in g.store)
  }

  /** The edges, as a set, are the dependencies of the nodes nearer than the cap. */
  ghost predicate EdgesCorrect(g: Graph, edges: seq<Edge>) {
    forall e: Edge :: e in edges <==> g.cap > 0 && Within(g, e.from, g.cap - 1) && IsDep(g, e.from, e.to)
  }

  /** The flag is set exactly when some entry is queued at the cap, be it a second one of a key that
      is nearer.  So a key at the cap sets it, and it means a key at the cap or one step before. */
  ghost predicate MaxDepthCorrect(g: Graph, maxed: bool) {
    && (maxed <==> LevelAt(g, g.cap).entries != [])
    && ((exists k :: AtDistance(g, k, g.cap)) ==> maxed)
    && (maxed ==> g.cap < 2 || exists k :: Within(g, k, g.cap) && !Within(g, k, g.cap - 2))
  }

  ghost predicate ResultCorrect(g: Graph, r: ClosureResult) {
    && NodesCorrect(g, r.nodes)
    && EdgesCorrect(g, r.edges)
    && MaxDepthCorrect(g, r.maxDepthReached)
  }

  lemma EndBall(st: Bfs, g: Graph)
    requires Inv(st, g) && st.queue == []
    ensures forall k :: k in st.visited <==> Within(g, k, g.cap)
    ensures forall k, d: nat | k in st.visited :: st.dist[k] <= d <==> Within(g, k, d)
  {
    CloserVisited(st, g, g.cap);
    forall k | k in st.visited
      ensures Within(g, k, g.cap)
    {
      WithinGrows(g, k, st.dist[k], g.cap);
    }
    forall k, d: nat | k in st.visited
      ensures st.dist[k] <= d <==> Within(g, k, d)
    {
      if st.dist[k] <= d {
        WithinGrows(g, k, st.dist[k], d);
      }
      if Within(g, k, d) {
        NoCloser(g, k, st.dist[k], d);
      }
    }
  }

  lemma EndNodes(st: Bfs, g: Graph)
    requires Inv(st, g) && st.queue == []
    ensures NodesCorrect(g, st.nodes)
  {
    EndBall(st, g);
    forall i | 0 <= i < |st.nodes|
      ensures st.nodes[i].key in st.visited
      ensures st.nodes[i].external <==> g.cap > 0 && Within(g, st.nodes[i].key, g.cap - 1) && st.nodes[i].key !in g.store
    {
      assert st.nodes[i].key in KeySet(st.nodes);
      assert FlagRight(st.nodes[i], st.dist, g);
      if g.cap > 0 {
        assert st.dist[st.nodes[i].key] <= g.cap - 1 <==> Within(g, st.nodes[i].key, g.cap - 1);
      }
    }
    forall k
      ensures Within(g, k, g.cap) <==> exists i :: 0 <= i < |st.nodes| && st.nodes[i].key == k
    {
      assert Within(g, k, g.cap) <==> k in KeySet(st.nodes);
    }
    forall i, j, d: nat | 0 <= i < j < |st.nodes| && Within(g, st.nodes[j].key, d)
      ensures Within(g, st.nodes[i].key, d)
    {
      assert st.dist[st.nodes[i].key] <= st.dist[st.nodes[j].key] <= d;
    }
  }

  lemma EndEdges(st: Bfs, g: Graph)
    requires Inv(st, g) && st.queue == []
    ensures EdgesCorrect(g, st.edges)
  {
    EndBall(st, g);
    forall e: Edge
      ensures e in st.edges <==> g.cap > 0 && Within(g, e.from, g.cap - 1) && IsDep(g, e.from, e.to)
    {
      if g.cap > 0 {
        if Within(g, e.from, g.cap - 1) {
          WithinGrows(g, e.from, g.cap - 1, g.cap);
        }
        assert e.from in st.visited ==> (st.dist[e.from] <= g.cap - 1 <==> Within(g, e.from, g.cap - 1));
      }
    }
  }

  lemma EndMaxed(st: Bfs, g: Graph, d: nat, i: nat)
    requires Inv(st, g) && st.queue == [] && AtLevel(st, g, d, i)
    ensures MaxDepthCorrect(g, st.maxed)
  {
    EndLevel(st, g, d, i);
    EndBall(st, g);
    if k :| AtDistance(g, k, g.cap) {
      assert k in st.visited;
      NoCloser(g, k, g.cap, st.dist[k]);
    }
    if st.maxed && g.cap >= 2 {
      var k :| k in st.visited && st.dist[k] + 1 >= g.cap;
      assert st.dist[k] <= g.cap - 2 <==> Within(g, k, g.cap - 2);
    }
  }

  /** An unset flag means that nothing was cut off: the nodes are the full transitive closure, every
      one of them without a report is marked external, and no edge between them is missing. */
  lemma NothingCutOff(g: Graph, r: ClosureResult)
    requires ResultCorrect(g, r) && !r.maxDepthReached
    ensures forall k, e: nat | Within(g, k, e) :: Within(g, k, g.cap)
    ensures forall k, e: nat | Within(g, k, e) && k !in g.store :: Node(k, true) in r.nodes
    ensures forall k, j, e: nat | Within(g, k, e) && IsDep(g, k, j) :: Edge(k, j) in r.edges
  {
    assert !AtDistance(g, g.root, g.cap);
    WithinGrows(g, g.root, 0, g.cap);
    assert g.cap > 0;
    forall i, j | Within(g, i, g.cap) && IsDep(g, i, j)
      ensures Within(g, j, g.cap)
    {
      assert !AtDistance(g, i, g.cap);
      assert Within(g, i, g.cap - 1);
    }
    forall k, e: nat | Within(g, k, e)
      ensures Within(g, k, g.cap) && Within(g, k, g.cap - 1)
      ensures k !in g.store ==> Node(k, true) in r.nodes
    {
      ClosedIsAll(g, g.cap, k, e);
      assert !AtDistance(g, k, g.cap);
      var i :| 0 <= i < |r.nodes| && r.nodes[i].key == k;
      assert r.nodes[i] == Node(k, r.nodes[i].external) && r.nodes[i] in r.nodes;
    }
    forall k, j, e: nat | Within(g, k, e) && IsDep(g, k, j)
      ensures Edge(k, j) in r.edges
    {
      assert Within(g, k, g.cap - 1);
      assert Edge(k, j).from == k && Edge(k, j).to == j;
    }
  }

  /** Some dependency of the transitive closure is missing from the result, as an edge or as a node. */
  ghost predicate CutOff(g: Graph, r: ClosureResult) {
    exists k, j, e: nat :: Within(g, k, e) && IsDep(g, k, j) && !(Edge(k, j) in r.edges && HasNode(r, j))
  }

  ghost predicate HasNode(r: ClosureResult, k: Key) {
    exists i :: 0 <= i < |r.nodes| && r.nodes[i].key == k
  }

  /** Exactly when something is cut off: a key at the cap has a dependency that is no stub. */
  lemma CutOffExact(g: Graph, r: ClosureResult)
    requires ResultCorrect(g, r)
    ensures CutOff(g, r) <==> exists k, j :: AtDistance(g, k, g.cap) && IsDep(g, k, j)
  {
    if CutOff(g, r) {
      var k, j, e: nat :| Within(g, k, e) && IsDep(g, k, j) && !(Edge(k, j) in r.edges && HasNode(r, j));
      BelowTheCap(g, r, k, j);
      if Within(g, k, g.cap) {
        assert AtDistance(g, k, g.cap);
      } else {
        var x, y := LeavesTheBall(g, k, e);
      }
    }
    if k, j :| AtDistance(g, k, g.cap) && IsDep(g, k, j) {
      assert Edge(k, j).from == k && Edge(k, j) !in r.edges;
    }
  }

  lemma BelowTheCap(g: Graph, r: ClosureResult, k: Key, j: Key)
    requires ResultCorrect(g, r) && IsDep(g, k, j)
    ensures g.cap > 0 && Within(g, k, g.cap - 1) ==> Edge(k, j) in r.edges && HasNode(r, j)
  {
    if g.cap > 0 && Within(g, k, g.cap - 1) {
      assert Edge(k, j).from == k && Edge(k, j).to == j;
      assert Within(g, j, g.cap);
    }
  }

  /** A path to a key beyond the cap has a dependency that starts at the cap. */
  lemma {:induction false} LeavesTheBall(g: Graph, k: Key, e: nat) returns (x: Key, y: Key)
    requires Within(g, k, e) && !Within(g, k, g.cap)
    ensures AtDistance(g, x, g.cap) && IsDep(g, x, y)
    decreases e
  {
    WithinGrows(g, g.root, 0, g.cap);
    if e > 0 && Within(g, k, e - 1) {
      x, y := LeavesTheBall(g, k, e - 1);
    } else {
      var j :| Within(g, j, e - 1) && IsDep(g, j, k);
      if Within(g, j, g.cap) {
        x, y := j, k;
      } else {
        x, y := LeavesTheBall(g, j, e - 1);
      }
    }
  }

  /** A correct result is determined up to the order of nodes at one distance and the
      repetition of edges: two of them have the same nodes and the same edge set. */
  lemma ResultUnique(g: Graph, r: ClosureResult, r': ClosureResult)
    requires ResultCorrect(g, r) && ResultCorrect(g, r')
    ensures forall n :: n in r.nodes <==> n in r'.nodes
    ensures forall e :: e in r.edges <==> e in r'.edges
    ensures |r.nodes| == |r'.nodes|
  {
    SameNodes(g, r.nodes, r'.nodes);
    SameNodes(g, r'.nodes, r.nodes);
    NoRepeats(r.nodes);
    NoRepeats(r'.nodes);
    assert (set n | n in r.nodes) == (set n | n in r'.nodes);
  }

  lemma SameNodes(g: Graph, a: seq<Node>, b: seq<Node>)
    requires NodesCorrect(g, a) && NodesCorrect(g, b)
    ensures forall n :: n in a ==> n in b
  {
    forall n | n in a
      ensures n in b
    {
      var i :| 0 <= i < |a| && a[i] == n;
      assert Within(g, a[i].key, g.cap);
      var j :| 0 <= j < |b| && b[j].key == a[i].key;
      assert b[j] == a[i];
    }
  }

  lemma {:induction false} NoRepeats(ns: seq<Node>)
    requires forall i, j | 0 <= i < j < |ns| :: ns[i].key != ns[j].key
    ensures |set n | n in ns| == |ns|
  {
    if ns != [] {
      var m := |ns| - 1;
      NoRepeats(ns[..m]);
      assert (set n | n in ns) == (set n | n in ns[..m]) + {ns[m]};
    }
  }

  // ----- The program -----

  /** The search for the just-added node, whose flag is flipped in place. */
  method FlipExternal(nodes: seq<Node>, k: Key) returns (flipped: seq<Node>)
    requires forall i, j | 0 <= i < j < |nodes| :: nodes[i].key != nodes[j].key
    ensures flipped == Flag(nodes, k)
  {
    flipped := nodes;
    for i := 0 to |nodes|
      invariant flipped == nodes
      invariant forall j | 0 <= j < i :: nodes[j].key != k
    {
      if nodes[i].key == k {
        flipped := nodes[i := Node(k, true)];
        break;
      }
    }
  }

  /** The loop over the dependencies of a dequeued key: one edge each, and a queue entry for
      each that is not yet visited. */
  method Expand(cur: Queued, deps: seq<Key>, visited: set<Key>) returns (edges: seq<Edge>, pushed: seq<Queued>)
    ensures edges == EdgesTo(cur.key, WithoutStubs(deps))
    ensures pushed == Pushes(visited, WithoutStubs(deps), cur.depth + 1)
  {
    edges, pushed := [], [];
    for i := 0 to |deps|
      invariant edges == EdgesTo(cur.key, WithoutStubs(deps[..i]))
      invariant pushed == Pushes(visited, WithoutStubs(deps[..i]), cur.depth + 1)
    {
      assert deps[..i + 1][..i] == deps[..i];
      var dep := deps[i];
      if dep.version == "" || dep.version == "0" {
        continue;
      }
      assert WithoutStubs(deps[..i + 1])[..|WithoutStubs(deps[..i])|] == WithoutStubs(deps[..i]);
      edges := edges + [Edge(cur.key, dep)];
      if dep !in visited {
        pushed := pushed + [Queued(dep, cur.depth + 1)];
      }
    }
    assert deps[..|deps|] == deps;
  }

  /** One turn of the walk's loop. */
  method Dequeue(g: Graph, queue: seq<Queued>, visited: set<Key>, nodes: seq<Node>, edges: seq<Edge>, maxed: bool, ghost st: Bfs)
    returns (queue': seq<Queued>, visited': set<Key>, nodes': seq<Node>, edges': seq<Edge>, maxed': bool)
    requires st.queue == queue && st.visited == visited && st.nodes == nodes && st.edges == edges && st.maxed == maxed
    requires queue != []
    requires forall i, j | 0 <= i < j < |Visited(st).nodes| :: Visited(st).nodes[i].key != Visited(st).nodes[j].key
    ensures var st' := Next(st, g);
            st'.queue == queue' && st'.visited == visited' && st'.nodes == nodes' && st'.edges == edges' && st'.maxed == maxed'
  {
    var cur := queue[0];
    queue', visited', nodes', edges', maxed' := queue[1..], visited, nodes, edges, maxed;
    if cur.key !in visited' {
      visited' := visited' + {cur.key};
      nodes' := nodes' + [Node(cur.key, false)];
    }
    if cur.depth >= g.cap {
      maxed' := true;
      return;
    }
    if cur.key !in g.store {
      assert nodes' == Visited(st).nodes;
      nodes' := FlipExternal(nodes', cur.key);
      return;
    }
    var es, pushed := Expand(cur, g.store[cur.key], visited');
    edges', queue' := edges' + es, queue' + pushed;
  }

  method ClosureTo(g: Graph) returns (r: ClosureResult)
    ensures ResultCorrect(g, r)
  {
    var visited: set<Key> := {};
    var queue := [Queued(g.root, 0)];
    var nodes: seq<Node>, edges: seq<Edge>, maxed := [], [], false;
    ghost var st := Start(g.root);
    ghost var b := FanOut(g, g.store.Keys);
    ghost var d: nat, i: nat := 0, 0;
    StartInv(g);
    StartLevel(g);
    while |queue| > 0
      invariant st.queue == queue && st.visited == visited && st.nodes == nodes && st.edges == edges && st.maxed == maxed
      invariant Inv(st, g) && AtLevel(st, g, d, i)
      decreases Load(st.queue, b, g.cap)
    {
      NextInv(st, g);
      assert queue[0] in st.queue;
      LoadDrops(st, g, b);
      VisitedKeysDistinct(st, g);
      d, i := NextLevel(st, g, d, i);
      queue, visited, nodes, edges, maxed := Dequeue(g, queue, visited, nodes, edges, maxed, st);
      st := Next(st, g);
    }
    EndNodes(st, g);
    EndEdges(st, g);
    EndMaxed(st, g, d, i);
    r := ClosureResult(nodes, edges, maxed);
  }

  lemma VisitedKeysDistinct(st: Bfs, g: Graph)
    requires NodeInv(st, g) && HeadIsFurthest(st)
    ensures forall i, j | 0 <= i < j < |Visited(st).nodes| :: Visited(st).nodes[i].key != Visited(st).nodes[j].key
  {
    VisitedNodes(st);
  }

  /** Service.Closure: the walk with the repository's cap. */
  method Closure(store: Store, name: string, version: string) returns (r: ClosureResult)
    ensures ResultCorrect(Graph(store, Key(name, version), 10), r)
  {
    r := ClosureTo(Graph(store, Key(name, version), CLOSURE_MAX_DEPTH));
  }

  // ----- A flag that is set for nothing -----

  /** A module of a chain, n modules before its last one. */
  function Link(n: nat): Key {
    Key(seq(n, _ => 'a'), "1.0")
  }

  predicate IsLink(k: Key) {
    k == Link(|k.name|)
  }

  /** Each link depends on the next one, and the last one on nothing. */
  function ChainStore(n: nat): Store {
    if n == 0 then map[Link(0) := []] else ChainStore(n - 1)[Link(n) := [Link(n - 1)]]
  }

  function Chain(n: nat): Graph {
    Graph(ChainStore(n), Link(n), n)
  }

  lemma {:induction false} ChainDeps(n: nat, k: Key)
    ensures k in ChainStore(n) <==> IsLink(k) && |k.name| <= n
    ensures k in ChainStore(n) ==> ChainStore(n)[k] == if |k.name| == 0 then [] else [Link(|k.name| - 1)]
  {
    assert |Link(n).name| == n;
    if n > 0 {
      ChainDeps(n - 1, k);
    }
  }

  /** The links within d edges of the root. */
  predicate LinkWithin(n: nat, k: Key, d: nat) {
    IsLink(k) && |k.name| <= n <= |k.name| + d
  }

  lemma ChainStep(n: nat, j: Key, k: Key, d: nat)
    requires 0 < d && LinkWithin(n, j, d - 1) && IsDep(Chain(n), j, k)
    ensures LinkWithin(n, k, d)
  {
    ChainDeps(n, j);
    assert |Link(|j.name| - 1).name| == |j.name| - 1;
  }

  lemma {:induction false} ChainWithin(n: nat, k: Key, d: nat)
    ensures Within(Chain(n), k, d) <==> LinkWithin(n, k, d)
    decreases d
  {
    assert |Link(n).name| == n;
    if d > 0 {
      ChainWithin(n, k, d - 1);
      if j :| Within(Chain(n), j, d - 1) && IsDep(Chain(n), j, k) {
        ChainWithin(n, j, d - 1);
        ChainStep(n, j, k, d);
      }
      if LinkWithin(n, k, d) && |k.name| < n {
        var j := Link(|k.name| + 1);
        assert |j.name| == |k.name| + 1;
        ChainWithin(n, j, d - 1);
        ChainDeps(n, j);
        assert IsDep(Chain(n), j, k);
      }
    }
  }

  /** The last link, and only it, is at the full distance, and it has no dependency. */
  lemma ChainEnd(n: nat, k: Key, j: Key)
    requires n > 0
    ensures AtDistance(Chain(n), k, n) <==> k == Link(0)
    ensures !IsDep(Chain(n), Link(0), j)
  {
    assert |Link(0).name| == 0;
    ChainWithin(n, k, n);
    ChainWithin(n, k, n - 1);
    ChainDeps(n, Link(0));
  }

  /** A chain of as many edges as the cap, whose last module lists nothing: the flag is set although
      nothing is cut off. */
  lemma SetWithNothingCutOff(r: ClosureResult)
    requires ResultCorrect(Chain(10), r)
    ensures r.maxDepthReached && !CutOff(Chain(10), r)
  {
    var n := 10;
    ChainEnd(n, Link(0), Link(0));
    CutOffExact(Chain(n), r);
    forall k, j | AtDistance(Chain(n), k, n)
      ensures !IsDep(Chain(n), k, j)
    {
      ChainEnd(n, k, j);
    }
  }

  // ----- A flag that depends on the order of a report -----

  const P: Key := Key("p", "2.0")
  const K: Key := Key("k", "2.0")
  const J: Key := Key("j", "2.0")

  /** A chain of n edges whose last link lists p and k, or k and p; p lists k, k lists j, and j nothing. */
  function Fork(n: nat, pFirst: bool): Graph {
    Graph(WithFork(ChainStore(n), Link(0), pFirst), Link(n), n + 3)
  }

  function WithFork(s: Store, last: Key, pFirst: bool): Store {
    s[last := if pFirst then [P, K] else [K, P]][P := [K]][K := [J]][J := []]
  }

  lemma ForkedStore(g: Graph, s: Store, last: Key, pFirst: bool)
    requires g.store == WithFork(s, last, pFirst) && last.version == "1.0"
    ensures Children(g, last) == if pFirst then [P, K] else [K, P]
    ensures Children(g, P) == [K] && Children(g, K) == [J] && Children(g, J) == []
    ensures forall k: Key | k.version == "1.0" && k != last && k in s :: k in g.store && g.store[k] == s[k]
  {
    OneChild(K);
    OneChild(J);
    TwoChildren(P, K);
    TwoChildren(K, P);
  }

  lemma ForkLink(n: nat, pFirst: bool, i: nat)
    requires 0 < i <= n
    ensures Children(Fork(n, pFirst), Link(i)) == [Link(i - 1)]
  {
    var k := Link(i);
    assert |k.name| == i && |Link(0).name| == 0 && k.version == Link(0).version == "1.0";
    ChainDeps(n, k);
    ForkedStore(Fork(n, pFirst), ChainStore(n), Link(0), pFirst);
    OneChild(Link(i - 1));
  }

  lemma OneChild(k: Key)
    requires !Stub(k)
    ensures WithoutStubs([k]) == [k]
  {
    assert [k][..0] == [];
  }

  lemma TwoChildren(j: Key, k: Key)
    requires !Stub(j) && !Stub(k)
    ensures WithoutStubs([j, k]) == [j, k]
  {
    assert [j, k][..1] == [j];
    OneChild(j);
  }

  lemma UnvisitedOne(k: Key, visited: set<Key>)
    ensures Unvisited([k], visited) == if k in visited then [] else [k]
  {
    assert [k][..0] == [];
  }

  lemma UnvisitedTwo(j: Key, k: Key, visited: set<Key>)
    requires j !in visited && k !in visited
    ensures Unvisited([j, k], visited) == [j, k]
  {
    assert [j, k][..1] == [j];
    UnvisitedOne(j, visited);
  }

  lemma ScanOne(g: Graph, k: Key, visited: set<Key>)
    ensures Scan(g, Level([k], visited)) == Level(Unvisited(Children(g, k), visited + {k}), visited + {k})
  {
    assert [k][..0] == [];
    assert Scan(g, Level([], visited)) == Level([], visited);
  }

  lemma ScanTwo(g: Graph, j: Key, k: Key, visited: set<Key>)
    ensures Scan(g, Level([j, k], visited)) ==
              var v := visited + {j}; Level(Unvisited(Children(g, j), v) + Unvisited(Children(g, k), v + {k}), v + {k})
  {
    assert [j, k][..1] == [j];
    ScanOne(g, j, visited);
  }

  /** What the levels depend on. */
  ghost predicate IsFork(g: Graph, n: nat, pFirst: bool) {
    && g.root == Link(n) && g.cap == n + 3
    && (forall i | 0 < i <= n :: Children(g, Link(i)) == [Link(i - 1)])
    && Children(g, Link(0)) == (if pFirst then [P, K] else [K, P])
    && Children(g, P) == [K] && Children(g, K) == [J] && Children(g, J) == []
  }

  lemma ForkIsFork(n: nat, pFirst: bool)
    ensures IsFork(Fork(n, pFirst), n, pFirst)
  {
    ForkedStore(Fork(n, pFirst), ChainStore(n), Link(0), pFirst);
    forall i | 0 < i <= n
      ensures Children(Fork(n, pFirst), Link(i)) == [Link(i - 1)]
    {
      ForkLink(n, pFirst, i);
    }
  }

  /** Only links that are further from the end than i. */
  ghost predicate LinksAbove(ks: set<Key>, i: int) {
    forall k | k in ks :: IsLink(k) && |k.name| > i
  }

  lemma {:induction false} ForkChain(g: Graph, n: nat, pFirst: bool, d: nat)
    requires IsFork(g, n, pFirst) && d <= n
    ensures LevelAt(g, d).entries == [Link(n - d)] && LinksAbove(LevelAt(g, d).visited, n - d)
  {
    if d > 0 {
      ForkChain(g, n, pFirst, d - 1);
      ChainLevel(g, LevelAt(g, d - 1), n - d);
    }
  }

  lemma ChainLevel(g: Graph, l: Level, i: nat)
    requires l.entries == [Link(i + 1)] && LinksAbove(l.visited, i + 1) && Children(g, Link(i + 1)) == [Link(i)]
    ensures Scan(g, l).entries == [Link(i)] && LinksAbove(Scan(g, l).visited, i)
  {
    assert |Link(i).name| == i && |Link(i + 1).name| == i + 1;
    assert l == Level([Link(i + 1)], l.visited);
    ScanToOne(g, Link(i + 1), Link(i), l.visited);
  }

  lemma ScanToOne(g: Graph, j: Key, k: Key, v: set<Key>)
    requires Children(g, j) == [k] && k != j && k !in v
    ensures Scan(g, Level([j], v)) == Level([k], v + {j})
  {
    ScanOne(g, j, v);
    UnvisitedOne(k, v + {j});
  }

  lemma NotLinks(ks: set<Key>)
    requires LinksAbove(ks, -1)
    ensures P !in ks && K !in ks && J !in ks
  {
    assert Link(|P.name|).version == Link(|K.name|).version == Link(|J.name|).version == "1.0";
  }

  lemma ForkEnd(g: Graph, n: nat, pFirst: bool)
    requires IsFork(g, n, pFirst)
    ensures LevelAt(g, g.cap).entries == if pFirst then [J] else []
  {
    var l := LevelAt(g, n);
    ForkChain(g, n, pFirst, n);
    NotLinks(l.visited + {Link(0)});
    assert l == Level([Link(0)], l.visited);
    LastLevels(g, Link(0), l.visited, pFirst);
    ThreeLevels(g, n);
  }

  lemma ThreeLevels(g: Graph, n: nat)
    ensures LevelAt(g, n + 3) == Scan(g, Scan(g, Scan(g, LevelAt(g, n))))
  {
    assert LevelAt(g, n + 1) == Scan(g, LevelAt(g, n));
    assert LevelAt(g, n + 2) == Scan(g, LevelAt(g, n + 1));
  }

  lemma LastLevels(g: Graph, e: Key, v: set<Key>, pFirst: bool)
    requires P !in v + {e} && K !in v + {e} && J !in v + {e}
    requires Children(g, e) == (if pFirst then [P, K] else [K, P])
    requires Children(g, P) == [K] && Children(g, K) == [J] && Children(g, J) == []
    ensures Scan(g, Scan(g, Scan(g, Level([e], v)))).entries == if pFirst then [J] else []
  {
    ScanOne(g, e, v);
    if pFirst {
      UnvisitedTwo(P, K, v + {e});
      PThenK(g, P, K, J, v + {e});
    } else {
      UnvisitedTwo(K, P, v + {e});
      KThenP(g, P, K, J, v + {e});
    }
  }

  /** What two entries queue. */
  lemma ScanPair(g: Graph, j: Key, k: Key, v: set<Key>, xs: seq<Key>, ys: seq<Key>)
    requires Unvisited(Children(g, j), v + {j}) == xs && Unvisited(Children(g, k), v + {j} + {k}) == ys
    ensures Scan(g, Level([j, k], v)) == Level(xs + ys, v + {j} + {k})
  {
    ScanTwo(g, j, k, v);
  }

  /** p queues k again before k has left the queue, and the second k queues j again. */
  lemma PThenK(g: Graph, p: Key, k: Key, j: Key, v: set<Key>)
    requires p !in v && k !in v && j !in v && p != k && p != j && k != j
    requires Children(g, p) == [k] && Children(g, k) == [j] && Children(g, j) == []
    ensures Scan(g, Scan(g, Level([p, k], v))).entries == [j]
  {
    var w := v + {p} + {k};
    UnvisitedOne(k, v + {p});
    UnvisitedOne(j, w);
    ScanPair(g, p, k, v, [k], [j]);
    assert [k] + [j] == [k, j] && w + {k} == w;
    ScanPair(g, k, j, w, [j], []);
  }

  lemma KThenP(g: Graph, p: Key, k: Key, j: Key, v: set<Key>)
    requires p !in v && k !in v && j !in v && p != k && p != j && k != j
    requires Children(g, p) == [k] && Children(g, k) == [j] && Children(g, j) == []
    ensures Scan(g, Scan(g, Level([k, p], v))).entries == []
  {
    var w := v + {k} + {p};
    UnvisitedOne(j, v + {k});
    UnvisitedOne(k, w);
    ScanPair(g, k, p, v, [j], []);
    assert [j] + [] == [j];
    ScanOne(g, j, w);
  }

  /** Distances do not decide the flag, nor does the dependency relation: two graphs with the same
      dependencies, of which only one sets it.  They differ in the order of one report: where p comes
      first, k is queued a second time. */
  lemma FlagDependsOnOrder(n: nat, a: ClosureResult, b: ClosureResult)
    requires ResultCorrect(Fork(n, true), a) && ResultCorrect(Fork(n, false), b)
    ensures Fork(n, true).root == Fork(n, false).root && Fork(n, true).cap == Fork(n, false).cap == n + 3
    ensures forall j: Key, k: Key :: IsDep(Fork(n, true), j, k) <==> IsDep(Fork(n, false), j, k)
    ensures a.maxDepthReached && !b.maxDepthReached
  {
    ForkIsFork(n, true);
    ForkIsFork(n, false);
    ForkFlag(Fork(n, true), n, true, a);
    ForkFlag(Fork(n, false), n, false, b);
    forall j: Key, k: Key
      ensures IsDep(Fork(n, true), j, k) <==> IsDep(Fork(n, false), j, k)
    {
      ForkDeps(n, j, k);
    }
  }

  lemma ForkFlag(g: Graph, n: nat, pFirst: bool, r: ClosureResult)
    requires IsFork(g, n, pFirst) && ResultCorrect(g, r)
    ensures r.maxDepthReached <==> pFirst
  {
    ForkEnd(g, n, pFirst);
    assert MaxDepthCorrect(g, r.maxDepthReached);
  }

  lemma ForkDeps(n: nat, j: Key, k: Key)
    ensures IsDep(Fork(n, true), j, k) <==> IsDep(Fork(n, false), j, k)
  {
    assert forall x :: x in [P, K] <==> x in [K, P];
  }

  // ----- Reverse dependencies -----

  /** Service.ReverseDeps over the rows of the store, stubs included. */
  method ReverseDeps(store: Store, rows: seq<Key>, k: Key) returns (deps: seq<Key>)
    ensures forall m :: m in deps <==> m in rows && m in store && k in store[m]
    ensures forall i, j | 0 <= i < j < |deps| :: deps[i] != deps[j]
  {
    deps := [];
    var seen: set<Key> := {};
    for i := 0 to |rows|
      invariant forall m :: m in seen <==> m in deps
      invariant forall m :: m in deps <==> m in rows[..i] && m in store && k in store[m]
      invariant forall a, b | 0 <= a < b < |deps| :: deps[a] != deps[b]
    {
      var mv := rows[i];
      if mv in store && k in store[mv] && mv !in seen {
        seen := seen + {mv};
        deps := deps + [mv];
      }
    }
    assert rows[..|rows|] == rows;
  }

  /** The two directions agree: for a dependency that is no stub, a stored module is among its
      reverse dependencies exactly when the closure of that module has the edge to it. */
  lemma ReverseMatchesEdges(store: Store, rows: seq<Key>, k: Key, deps: seq<Key>, m: Key, r: ClosureResult)
    requires forall x :: x in deps <==> x in rows && x in store && k in store[x]
    requires m in rows && !Stub(k)
    requires ResultCorrect(Graph(store, m, CLOSURE_MAX_DEPTH), r)
    ensures m in deps <==> Edge(m, k) in r.edges
  {
    var g := Graph(store, m, CLOSURE_MAX_DEPTH);
    WithinGrows(g, m, 0, CLOSURE_MAX_DEPTH - 1);
    assert Edge(m, k) in r.edges <==> Within(g, m, g.cap - 1) && IsDep(g, m, k);
  }

  // ----- Ingesting what is missing -----

  /** Service.IngestClosureMissing: one Bump for every external node, in node order, whatever
      becomes of the others. */
  method IngestClosureMissing(store: Store, name: string, version: string, bump: Key -> bool)
    returns (bumped: nat, failed: seq<Key>, tried: seq<Key>)
    ensures forall k :: k in tried <==>
              Within(Graph(store, Key(name, version), 10), k, 9) && k !in store
    ensures forall i, j | 0 <= i < j < |tried| :: tried[i] != tried[j]
    ensures bumped + |failed| == |tried| && forall k :: k in failed <==> k in tried && !bump(k)
  {
    ghost var g := Graph(store, Key(name, version), CLOSURE_MAX_DEPTH);
    var r := Closure(store, name, version);
    bumped, failed, tried := 0, [], [];
    for i := 0 to |r.nodes|
      invariant forall k :: k in tried <==> exists j :: 0 <= j < i && r.nodes[j].key == k && r.nodes[j].external
      invariant forall a, b | 0 <= a < b < |tried| :: tried[a] != tried[b]
      invariant bumped + |failed| == |tried| && forall k :: k in failed <==> k in tried && !bump(k)
    {
      var n := r.nodes[i];
      if !n.external {
        continue;
      }
      assert n.key !in tried;
      tried := tried + [n.key];
      if !bump(n.key) {
        failed := failed + [n.key];
        continue;
      }
      bumped := bumped + 1;
    }
    forall k
      ensures k in tried <==> Within(g, k, g.cap - 1) && k !in store
    {
      ExternalExact(g, r.nodes, k);
    }
  }

  lemma ExternalExact(g: Graph, nodes: seq<Node>, k: Key)
    requires NodesCorrect(g, nodes) && g.cap > 0
    ensures (exists j :: 0 <= j < |nodes| && nodes[j].key == k && nodes[j].external) <==> Within(g, k, g.cap - 1) && k !in g.store
  {
    if Within(g, k, g.cap - 1) {
      WithinGrows(g, k, g.cap - 1, g.cap);
    }
  }
}
