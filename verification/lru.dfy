/** Least-recently-used order, as the three hand-written caches of the repository keep it:
    newest first, at most `cap` keys.  The caches evict in two different orders; both are the
    one function below. */
module Lru {
  import opened Wrappers

  function Without<K(==)>(s: seq<K>, k: K): seq<K> {
    if s == [] then []
    else if s[0] == k then Without(s[1..], k)
    else [s[0]] + Without(s[1..], k)
  }

  function Take<K>(s: seq<K>, n: nat): seq<K> {
    if |s| <= n then s else s[..n]
  }

  /** k becomes the newest key; the oldest one goes when there are more than cap. */
  function Touched<K(==)>(s: seq<K>, k: K, cap: nat): seq<K> {
    Take([k] + Without(s, k), cap)
  }

  ghost predicate NoDup<K>(s: seq<K>) {
    forall i, j | 0 <= i < j < |s| :: s[i] != s[j]
  }

  lemma {:induction false} WithoutExact<K(!new)>(s: seq<K>, k: K)
    requires NoDup(s)
    ensures NoDup(Without(s, k))
    ensures forall x :: x in Without(s, k) <==> x in s && x != k
    ensures |Without(s, k)| == |s| - if k in s then 1 else 0
    ensures k !in s ==> Without(s, k) == s
  {
    if s != [] {
      WithoutExact(s[1..], k);
      assert forall x :: x in s <==> x == s[0] || x in s[1..];
      assert s[0] !in s[1..];
      var r := Without(s[1..], k);
      forall i, j | s[0] != k && 0 <= i < j < |[s[0]] + r|
        ensures ([s[0]] + r)[i] != ([s[0]] + r)[j]
      {
        assert ([s[0]] + r)[j] == r[j - 1] && r[j - 1] in r;
      }
    }
  }

  lemma TouchedExact<K(!new)>(s: seq<K>, k: K, cap: nat)
    requires NoDup(s) && cap > 0
    ensures NoDup(Touched(s, k, cap)) && |Touched(s, k, cap)| <= cap
    ensures k in Touched(s, k, cap)
    ensures forall x | x in Touched(s, k, cap) :: x == k || x in s
    ensures k in s && |s| <= cap ==> forall x :: x in Touched(s, k, cap) <==> x in s
  {
    WithoutExact(s, k);
    var rest := Without(s, k);
    var r := Touched(s, k, cap);
    assert r[0] == k;
    forall x | x in r && x != k
      ensures x in s
    {
      var i :| 0 <= i < |r| && r[i] == x;
      assert x == ([k] + rest)[i] == rest[i - 1];
      assert rest[i - 1] in rest;
    }
  }

  /** Evicting down to one below capacity and then inserting is the same as inserting and then
      evicting down to capacity. */
  lemma EvictionOrders<K(!new)>(s: seq<K>, k: K, cap: nat)
    requires cap > 0 && NoDup(s) && k !in s
    ensures [k] + Take(s, cap - 1) == Take([k] + s, cap) == Touched(s, k, cap)
  {
    WithoutExact(s, k);
  }

  // ----- List and map together -----

  /** The map and the list of one cache. */
  datatype Table<K(==), V> = Table(entries: map<K, V>, order: seq<K>)

  /** List and map hold the same keys, each once and at most cap of them. */
  ghost predicate Held<K(!new), V>(t: Table<K, V>, cap: nat) {
    && NoDup(t.order)
    && (forall k :: k in t.order <==> k in t.entries)
    && |t.order| <= cap
  }

  function Keep<K(==), V>(m: map<K, V>, s: seq<K>): map<K, V> {
    map k | k in m && k in s :: m[k]
  }

  function Removed<K(==), V>(t: Table<K, V>, k: K): Table<K, V> {
    Table(t.entries - {k}, Without(t.order, k))
  }

  function Moved<K(==), V>(t: Table<K, V>, k: K, cap: nat): Table<K, V> {
    t.(order := Touched(t.order, k, cap))
  }

  function Inserted<K(==), V>(t: Table<K, V>, k: K, v: V, cap: nat): Table<K, V> {
    Table(Keep(t.entries[k := v], Touched(t.order, k, cap)), Touched(t.order, k, cap))
  }

  lemma RemovedHeld<K(!new), V>(t: Table<K, V>, k: K, cap: nat)
    requires Held(t, cap)
    ensures Held(Removed(t, k), cap)
  {
    WithoutExact(t.order, k);
  }

  lemma MovedHeld<K(!new), V>(t: Table<K, V>, k: K, cap: nat)
    requires Held(t, cap) && k in t.entries
    ensures Held(Moved(t, k, cap), cap)
    ensures Touched(t.order, k, cap) == [k] + Without(t.order, k)
  {
    NonEmpty(t.order, k);
    TouchedExact(t.order, k, cap);
    WithoutExact(t.order, k);
  }

  lemma NonEmpty<K(!new)>(s: seq<K>, k: K)
    requires k in s
    ensures |s| > 0
  {
  }

  /** Storing keeps the two in step, holds the new value, and of the other keys at most some are
      lost. */
  lemma InsertedHeld<K(!new), V>(t: Table<K, V>, k: K, v: V, cap: nat)
    requires Held(t, cap) && cap > 0
    ensures Held(Inserted(t, k, v, cap), cap)
    ensures k in Inserted(t, k, v, cap).entries && Inserted(t, k, v, cap).entries[k] == v
    ensures forall x | x in Inserted(t, k, v, cap).entries && x != k ::
              x in t.entries && Inserted(t, k, v, cap).entries[x] == t.entries[x]
  {
    TouchedExact(t.order, k, cap);
  }

  /** A resident key: replacing its value and moving it is all there is to do. */
  lemma InsertedInPlace<K(!new), V>(t: Table<K, V>, k: K, v: V, cap: nat)
    requires Held(t, cap) && k in t.entries
    ensures Inserted(t, k, v, cap) == Table(t.entries[k := v], [k] + Without(t.order, k))
  {
    MovedHeld(t, k, cap);
    NonEmpty(t.order, k);
    TouchedExact(t.order, k, cap);
  }

  /** A new key: evict to cap - 1 and insert. */
  lemma EvictThenInsert<K(!new), V>(t: Table<K, V>, k: K, v: V, cap: nat)
    requires Held(t, cap) && cap > 0 && k !in t.entries
    ensures var kept := Take(t.order, cap - 1);
            Inserted(t, k, v, cap) == Table(Keep(t.entries, kept)[k := v], [k] + kept)
  {
    EvictionOrders(t.order, k, cap);
    var kept := Take(t.order, cap - 1);
    assert k !in kept by {
      assert forall x | x in kept :: x in t.order;
    }
    assert forall x :: x in [k] + kept <==> x == k || x in kept;
  }

  /** A new key: insert and evict to cap. */
  lemma InsertThenEvict<K(!new), V>(t: Table<K, V>, k: K, v: V, cap: nat)
    requires Held(t, cap) && cap > 0 && k !in t.entries
    ensures var kept := Take([k] + t.order, cap);
            Inserted(t, k, v, cap) == Table(Keep(t.entries[k := v], kept), kept)
  {
    EvictionOrders(t.order, k, cap);
  }

  /** What an eviction loop has done when it stops. */
  lemma EvictedAll<K(!new), V>(m: map<K, V>, s: seq<K>, n: nat, m': map<K, V>, s': seq<K>)
    requires |s'| <= |s| && s' == s[..|s'|] && |s'| <= n && (|s'| < |s| ==> |s'| == n)
    requires forall k :: k in s' <==> k in m'
    requires forall k | k in m' :: k in m && m'[k] == m[k]
    ensures s' == Take(s, n) && m' == Keep(m, s')
  {
  }

  // ----- When a key is lost -----

  datatype Op<K> = Touch(k: K) | Drop(k: K)

  function Apply<K(==)>(s: seq<K>, op: Op<K>, cap: nat): seq<K> {
    match op
    case Touch(k) => Touched(s, k, cap)
    case Drop(k) => Without(s, k)
  }

  function Run<K(==)>(s: seq<K>, ops: seq<Op<K>>, cap: nat): seq<K> {
    if ops == [] then s else Apply(Run(s, ops[..|ops| - 1], cap), ops[|ops| - 1], cap)
  }

  /** The keys before k. */
  function Ahead<K(==)>(s: seq<K>, k: K): set<K> {
    if s == [] || s[0] == k then {} else {s[0]} + Ahead(s[1..], k)
  }

  function TouchedKeys<K(==)>(ops: seq<Op<K>>): set<K> {
    set op | op in ops && op.Touch? :: op.k
  }

  lemma {:induction false} AheadWithout<K(!new)>(s: seq<K>, j: K, k: K)
    requires j != k
    ensures Ahead(Without(s, j), k) == Ahead(s, k) - {j}
  {
    if s != [] {
      AheadWithout(s[1..], j, k);
    }
  }

  /** In a list without repetitions, k survives a cut to n exactly when fewer than n keys are
      before it. */
  lemma {:induction false} TakeAhead<K(!new)>(s: seq<K>, k: K, n: nat)
    requires NoDup(s)
    ensures k in Take(s, n) <==> k in s && |Ahead(s, k)| < n
    ensures k in Take(s, n) ==> Ahead(Take(s, n), k) == Ahead(s, k)
  {
    if s != [] && n > 0 {
      TakeAhead(s[1..], k, n - 1);
      TakeFront(s, n);
      AheadIn(s[1..], k);
      assert k in s <==> k == s[0] || k in s[1..];
      assert s[0] !in Ahead(s[1..], k) by {
        assert s[0] !in s[1..];
      }
    }
  }

  lemma TakeFront<K(!new)>(s: seq<K>, n: nat)
    requires s != [] && n > 0
    ensures Take(s, n) == [s[0]] + Take(s[1..], n - 1)
    ensures forall k :: k in Take(s, n) <==> k == s[0] || k in Take(s[1..], n - 1)
  {
    assert Take(s, n) == [s[0]] + Take(s[1..], n - 1);
  }

  lemma {:induction false} AheadIn<K(!new)>(s: seq<K>, k: K)
    ensures forall x | x in Ahead(s, k) :: x in s && x != k
  {
    if s != [] {
      AheadIn(s[1..], k);
    }
  }

  lemma ApplyAhead<K(!new)>(s: seq<K>, op: Op<K>, cap: nat, k: K)
    requires NoDup(s) && k in s && op.k != k
    ensures var s', before := Apply(s, op, cap), if op.Touch? then Ahead(s, k) + {op.k} else Ahead(s, k) - {op.k};
            && NoDup(s')
            && (k in s' <==> op.Drop? || |before| < cap)
            && (k in s' ==> Ahead(s', k) == before)
  {
    WithoutExact(s, op.k);
    AheadWithout(s, op.k, k);
    if op.Touch? {
      var all := [op.k] + Without(s, op.k);
      assert all[1..] == Without(s, op.k);
      assert Ahead(all, k) == {op.k} + Ahead(Without(s, op.k), k);
      TakeAhead(all, k, cap);
    }
  }

  lemma {:induction false} RunNoDup<K(!new)>(s: seq<K>, ops: seq<Op<K>>, cap: nat)
    requires NoDup(s) && cap > 0
    ensures NoDup(Run(s, ops, cap))
    ensures |s| <= cap ==> |Run(s, ops, cap)| <= cap
  {
    if ops != [] {
      var op := ops[|ops| - 1];
      RunNoDup(s, ops[..|ops| - 1], cap);
      WithoutExact(Run(s, ops[..|ops| - 1], cap), op.k);
      TouchedExact(Run(s, ops[..|ops| - 1], cap), op.k, cap);
    }
  }

  ghost predicate Untouched<K>(ops: seq<Op<K>>, k: K) {
    forall op | op in ops :: op.k != k
  }

  ghost predicate NoDrops<K>(ops: seq<Op<K>>) {
    forall op | op in ops :: op.Touch?
  }

  /** After k was touched and then left alone: the keys before it were touched since; while
      fewer than cap of them were, k is still there; and if nothing was dropped, cap of them
      push it out. */
  lemma {:induction false} Since<K(!new)>(s: seq<K>, ops: seq<Op<K>>, cap: nat, k: K)
    requires NoDup(s) && cap > 0 && Untouched(ops, k)
    ensures var r, t := Run(Touched(s, k, cap), ops, cap), TouchedKeys(ops);
            && (k in r ==> Ahead(r, k) <= t)
            && (|t| < cap ==> k in r)
            && (NoDrops(ops) && k in r ==> Ahead(r, k) == t && |t| < cap)
  {
    TouchedExact(s, k, cap);
    if ops == [] {
      WithoutExact(s, k);
    } else {
      var n := |ops| - 1;
      var rest, op := ops[..n], ops[n];
      assert forall o :: o in ops <==> o in rest || o == op;
      Since(s, rest, cap, k);
      RunNoDup(Touched(s, k, cap), rest, cap);
      var r0 := Run(Touched(s, k, cap), rest, cap);
      assert TouchedKeys(ops) == TouchedKeys(rest) + if op.Touch? then {op.k} else {};
      SubsetSize(TouchedKeys(rest), TouchedKeys(ops));
      if k in r0 {
        ApplyAhead(r0, op, cap, k);
        SubsetSize(if op.Touch? then Ahead(r0, k) + {op.k} else Ahead(r0, k) - {op.k}, TouchedKeys(ops));
      } else {
        NotAdded(r0, op, cap, k);
      }
    }
  }

  lemma NotAdded<K(!new)>(s: seq<K>, op: Op<K>, cap: nat, k: K)
    requires NoDup(s) && cap > 0 && k !in s && op.k != k
    ensures k !in Apply(s, op, cap)
  {
    WithoutExact(s, op.k);
    TouchedExact(s, op.k, cap);
  }

  /** A key that has not been dropped is lost only after at least cap distinct other keys were
      touched since its own last touch, and when nothing was dropped in between it is lost
      exactly then. */
  lemma LostOnlyByOverflow<K(!new)>(s: seq<K>, before: seq<Op<K>>, after: seq<Op<K>>, cap: nat, k: K)
    requires NoDup(s) && cap > 0 && Untouched(after, k)
    ensures k !in Run(s, before + [Touch(k)] + after, cap) ==> |TouchedKeys(after)| >= cap
    ensures NoDrops(after) ==> (k !in Run(s, before + [Touch(k)] + after, cap) <==> |TouchedKeys(after)| >= cap)
  {
    RunNoDup(s, before, cap);
    RunAppend(s, before + [Touch(k)], after, cap);
    assert (before + [Touch(k)])[..|before|] == before;
    Since(Run(s, before, cap), after, cap, k);
  }

  lemma {:induction false} RunAppend<K(!new)>(s: seq<K>, a: seq<Op<K>>, b: seq<Op<K>>, cap: nat)
    ensures Run(s, a + b, cap) == Run(Run(s, a, cap), b, cap)
  {
    if b == [] {
      assert a + b == a;
    } else {
      RunAppend(s, a, b[..|b| - 1], cap);
      assert (a + b)[..|a + b| - 1] == a + b[..|b| - 1];
    }
  }
}

/** The federation response cache (internal/backend/cache.go). */
module ResponseCache {
  import opened Lru
  import opened Wrappers

  datatype Entry = Entry(body: string, expires: int)

  type Cache = Table<string, Entry>

  function Cap(capacity: int): nat {
    if capacity > 0 then capacity else 0
  }

  function Fresh(c: Cache, key: string, now: int): Option<string> {
    if key in c.entries && now <= c.entries[key].expires then Some(c.entries[key].body) else None
  }

  /** A hit makes the key newest, a stale entry goes, anything else changes nothing. */
  function Got(c: Cache, capacity: int, key: string, now: int): Cache {
    if capacity <= 0 || key !in c.entries then c
    else if now > c.entries[key].expires then Removed(c, key)
    else Moved(c, key, capacity)
  }

  function Stored(c: Cache, capacity: int, key: string, body: string, ttl: int, now: int): Cache {
    if capacity <= 0 || ttl <= 0 then c else Inserted(c, key, Entry(body, now + ttl), capacity)
  }

  class LruCache {
    const capacity: int
    var entries: map<string, Entry>
    var order: seq<string>
    var hits: nat
    var misses: nat

    ghost function State(): Cache
      reads this
    {
      Table(entries, order)
    }

    ghost predicate Valid()
      reads this
    {
      Held(State(), Cap(capacity))
    }

    constructor (capacity: int)
      ensures Valid() && State() == Table(map[], []) && this.capacity == capacity && hits == misses == 0
    {
      this.capacity := capacity;
      entries, order, hits, misses := map[], [], 0, 0;
    }

    method Get(key: string, now: int) returns (body: Option<string>)
      requires Valid()
      modifies this
      ensures Valid() && State() == Got(old(State()), capacity, key, now)
      ensures body == if capacity <= 0 then None else Fresh(old(State()), key, now)
      ensures hits == old(hits) + (if body.Some? then 1 else 0)
      ensures misses == old(misses) + (if body.None? && capacity > 0 then 1 else 0)
    {
      if capacity <= 0 {
        return None;
      }
      if key !in entries {
        misses := misses + 1;
        return None;
      }
      if now > entries[key].expires {
        RemovedHeld(State(), key, capacity);
        order := Without(order, key);
        entries := entries - {key};
        misses := misses + 1;
        return None;
      }
      MovedHeld(State(), key, capacity);
      order := [key] + Without(order, key);
      hits := hits + 1;
      return Some(entries[key].body);
    }

    /** Replace in place, or evict down to capacity - 1 and then insert. */
    method Put(key: string, body: string, ttl: int, now: int)
      requires Valid()
      modifies this
      ensures Valid() && State() == Stored(old(State()), capacity, key, body, ttl, now)
      ensures hits == old(hits) && misses == old(misses)
    {
      if capacity <= 0 || ttl <= 0 {
        return;
      }
      ghost var c, e := State(), Entry(body, now + ttl);
      InsertedHeld(c, key, e, capacity);
      if key in entries {
        InsertedInPlace(c, key, e, capacity);
        entries := entries[key := Entry(body, now + ttl)];
        order := [key] + Without(order, key);
        return;
      }
      EvictThenInsert(c, key, e, capacity);
      EvictAtCapacity();
      entries := entries[key := Entry(body, now + ttl)];
      order := [key] + order;
    }

    /** The eviction loop of Put. */
    method EvictAtCapacity()
      requires Valid() && capacity > 0
      modifies `entries, `order
      ensures order == Take(old(order), capacity - 1) && entries == Keep(old(entries), order)
    {
      while |order| >= capacity
        invariant |order| <= |old(order)| && order == old(order)[..|order|]
        invariant |order| < |old(order)| ==> |order| >= capacity - 1
        invariant forall k :: k in order <==> k in entries
        invariant forall k | k in entries :: k in old(entries) && entries[k] == old(entries)[k]
        decreases |order|
      {
        var back := order[|order| - 1];
        assert order == order[..|order| - 1] + [back];
        order := order[..|order| - 1];
        entries := entries - {back};
      }
      EvictedAll(old(entries), old(order), capacity - 1, entries, order);
    }
  }

  // ----- What a hit returns -----

  datatype CacheOp = Get(key: string, now: int) | Put(key: string, body: string, ttl: int, now: int)

  function After(c: Cache, capacity: int, op: CacheOp): Cache {
    match op
    case Get(key, now) => Got(c, capacity, key, now)
    case Put(key, body, ttl, now) => Stored(c, capacity, key, body, ttl, now)
  }

  function AfterAll(capacity: int, ops: seq<CacheOp>): Cache {
    if ops == [] then Table(map[], []) else After(AfterAll(capacity, ops[..|ops| - 1]), capacity, ops[|ops| - 1])
  }

  /** The last Put of key that was not turned away for its ttl. */
  function LatestPut(ops: seq<CacheOp>, key: string): Option<CacheOp> {
    if ops == [] then None
    else
      var op := ops[|ops| - 1];
      if op.Put? && op.key == key && op.ttl > 0 then Some(op) else LatestPut(ops[..|ops| - 1], key)
  }

  ghost predicate IsLatest(e: Entry, p: Option<CacheOp>) {
    p.Some? && p.value.Put? && e == Entry(p.value.body, p.value.now + p.value.ttl)
  }

  lemma {:induction false} EntriesAreLatest(capacity: int, ops: seq<CacheOp>)
    ensures Held(AfterAll(capacity, ops), Cap(capacity))
    ensures forall k | k in AfterAll(capacity, ops).entries :: IsLatest(AfterAll(capacity, ops).entries[k], LatestPut(ops, k))
  {
    if ops != [] {
      var n := |ops| - 1;
      var c := AfterAll(capacity, ops[..n]);
      EntriesAreLatest(capacity, ops[..n]);
      match ops[n]
      case Get(key, now) =>
        GotKeeps(c, capacity, key, now);
        forall k | k in AfterAll(capacity, ops).entries
          ensures IsLatest(AfterAll(capacity, ops).entries[k], LatestPut(ops, k))
        {
          assert LatestPut(ops, k) == LatestPut(ops[..n], k);
        }
      case Put(key, body, ttl, now) =>
        StoredKeeps(c, capacity, key, body, ttl, now);
        forall k | k in AfterAll(capacity, ops).entries
          ensures IsLatest(AfterAll(capacity, ops).entries[k], LatestPut(ops, k))
        {
          assert k != key || ttl <= 0 ==> LatestPut(ops, k) == LatestPut(ops[..n], k);
        }
    }
  }

  lemma GotKeeps(c: Cache, capacity: int, key: string, now: int)
    requires Held(c, Cap(capacity))
    ensures Held(Got(c, capacity, key, now), Cap(capacity))
    ensures forall k | k in Got(c, capacity, key, now).entries :: k in c.entries && Got(c, capacity, key, now).entries[k] == c.entries[k]
  {
    if key in c.entries {
      RemovedHeld(c, key, Cap(capacity));
      MovedHeld(c, key, Cap(capacity));
    }
  }

  lemma StoredKeeps(c: Cache, capacity: int, key: string, body: string, ttl: int, now: int)
    requires Held(c, Cap(capacity))
    ensures var c' := Stored(c, capacity, key, body, ttl, now);
            && Held(c', Cap(capacity))
            && (capacity > 0 && ttl > 0 ==> key in c'.entries && c'.entries[key] == Entry(body, now + ttl))
            && (forall k | k in c'.entries && (k != key || ttl <= 0) :: k in c.entries && c'.entries[k] == c.entries[k])
            && (capacity <= 0 ==> c'.entries == map[])
  {
    if capacity > 0 {
      InsertedHeld(c, key, Entry(body, now + ttl), capacity);
    }
  }

  /** After any series of calls, a hit returns the body of the latest Put of its key, and no
      more than that Put's ttl has passed since. */
  lemma HitIsLatestAndFresh(capacity: int, ops: seq<CacheOp>, key: string, now: int)
    requires capacity > 0 && Fresh(AfterAll(capacity, ops), key, now).Some?
    ensures var p := LatestPut(ops, key);
            && p.Some? && p.value.Put?
            && Fresh(AfterAll(capacity, ops), key, now) == Some(p.value.body)
            && now - p.value.now <= p.value.ttl
  {
    EntriesAreLatest(capacity, ops);
  }

  /** The list is the abstract LRU of the calls that reach it. */
  function Effect(c: Cache, op: CacheOp): seq<Op<string>> {
    match op
    case Get(key, now) =>
      if key !in c.entries then [] else if now > c.entries[key].expires then [Drop(key)] else [Touch(key)]
    case Put(key, _, ttl, _) => if ttl <= 0 then [] else [Touch(key)]
  }

  function Effects(capacity: int, ops: seq<CacheOp>): seq<Op<string>> {
    if ops == [] then []
    else Effects(capacity, ops[..|ops| - 1]) + Effect(AfterAll(capacity, ops[..|ops| - 1]), ops[|ops| - 1])
  }

  lemma {:induction false} RefinesLru(capacity: int, ops: seq<CacheOp>)
    requires capacity > 0
    ensures AfterAll(capacity, ops).order == Run([], Effects(capacity, ops), capacity)
  {
    if ops != [] {
      var n := |ops| - 1;
      RefinesLru(capacity, ops[..n]);
      var e := Effect(AfterAll(capacity, ops[..n]), ops[n]);
      if e == [] {
        assert Effects(capacity, ops) == Effects(capacity, ops[..n]);
      } else {
        assert Effects(capacity, ops)[..|Effects(capacity, ops)| - 1] == Effects(capacity, ops[..n]);
      }
    }
  }
}

/** The maintainer-verdict cache (internal/policy/evaluator.go) and what AllowFor answers. */
module Evaluator {
  import opened Lru
  import opened Wrappers

  // ----- Policy -----

  datatype Gate = Any | Authenticated | Maintainer | Deny | Group(name: string) | Unrecognized

  datatype Identity = Identity(authenticated: bool, email: string, groups: seq<string>)

  type Actions = map<string, Gate>

  predicate Allow(actions: Actions, id: Identity, action: string) {
    action in actions &&
    match actions[action]
    case Any => true
    case Authenticated => id.authenticated
    case Group(name) => id.authenticated && name in id.groups
    case _ => false
  }

  datatype Key = Key(email: string, m: string)

  /** The maintainer table: who maintains what. */
  type Truth = Key -> bool

  /** AllowFor as its documentation says it: no cache, and the table asked every time. */
  predicate Uncached(actions: Actions, truth: Truth, id: Identity, action: string, target: string) {
    action in actions &&
    if actions[action].Maintainer? then id.authenticated && id.email != "" && target != "" && truth(Key(id.email, target))
    else Allow(actions, id, action)
  }

  // ----- The cache -----

  datatype Entry = Entry(verdict: bool, expires: int)

  type Cache = Table<Key, Entry>

  function Fresh(c: Cache, k: Key, now: int): Option<bool> {
    if k in c.entries && now <= c.entries[k].expires then Some(c.entries[k].verdict) else None
  }

  function LookedUp(c: Cache, cacheMax: nat, k: Key, now: int): Cache {
    if k !in c.entries then c
    else if now > c.entries[k].expires then Removed(c, k)
    else Moved(c, k, cacheMax)
  }

  function Invalidated(c: Cache, k: Key): Cache {
    if k in c.entries then Removed(c, k) else c
  }

  /** The cache after one AllowFor on a maintainer gate; a source error stores nothing. */
  function Asked(c: Cache, cacheMax: nat, ttl: int, k: Key, now: int, answer: Option<bool>): Cache {
    var c1 := LookedUp(c, cacheMax, k, now);
    if Fresh(c, k, now).Some? || answer.None? then c1 else Inserted(c1, k, Entry(answer.value, now + ttl), cacheMax)
  }

  /** Whether the maintainer table decides. */
  predicate Asks(actions: Actions, id: Identity, action: string, target: string) {
    action in actions && actions[action].Maintainer? && id.authenticated && id.email != "" && target != ""
  }

  predicate Verdict(actions: Actions, hasSource: bool, c: Cache, id: Identity, action: string, target: string,
    now: int, answer: Option<bool>) {
    if Asks(actions, id, action, target) && hasSource then
      var hit := Fresh(c, Key(id.email, target), now);
      if hit.Some? then hit.value else answer.Some? && answer.value
    else Allow(actions, id, action)
  }

  /** Gate by gate.  What is not named is denied; a maintainer gate needs a source, an identity with an
      address and a target, and then the unexpired verdict, or the source's answer without one. */
  lemma VerdictByGate(actions: Actions, hasSource: bool, c: Cache, id: Identity, action: string, target: string,
    now: int, answer: Option<bool>)
    ensures var ok := Verdict(actions, hasSource, c, id, action, target, now, answer);
            && (action !in actions || actions[action] == Deny || actions[action] == Unrecognized ==> !ok)
            && (action in actions && actions[action] == Any ==> ok)
            && (action in actions && actions[action] == Authenticated ==> (ok <==> id.authenticated))
            && (action in actions && actions[action].Group? ==> (ok <==> id.authenticated && actions[action].name in id.groups))
            && (action in actions && actions[action] == Maintainer ==>
                  (ok <==> hasSource && id.authenticated && id.email != "" && target != ""
                           && var k := Key(id.email, target);
                              if k in c.entries && c.entries[k].expires >= now then c.entries[k].verdict else answer == Some(true)))
            && (ok && !id.authenticated ==> action in actions && actions[action] == Any)
  {
  }

  lemma UncachedByGate(actions: Actions, truth: Truth, id: Identity, action: string, target: string)
    ensures var ok := Uncached(actions, truth, id, action, target);
            && (action !in actions || actions[action] == Deny || actions[action] == Unrecognized ==> !ok)
            && (action in actions && actions[action] == Any ==> ok)
            && (action in actions && actions[action] == Authenticated ==> (ok <==> id.authenticated))
            && (action in actions && actions[action].Group? ==> (ok <==> id.authenticated && actions[action].name in id.groups))
            && (action in actions && actions[action] == Maintainer ==>
                  (ok <==> id.authenticated && id.email != "" && target != "" && truth(Key(id.email, target))))
  {
  }

  class CachingEvaluator {
    const actions: Actions
    const hasSource: bool
    const cacheTTL: int
    const cacheMax: nat
    var list: seq<Key>
    var index: map<Key, Entry>

    ghost function State(): Cache
      reads this
    {
      Table(index, list)
    }

    ghost predicate Valid()
      reads this
    {
      cacheMax > 0 && Held(State(), cacheMax)
    }

    constructor (actions: Actions, hasSource: bool, ttl: int, max: int)
      ensures Valid() && State() == Table(map[], [])
      ensures this.actions == actions && this.hasSource == hasSource
      ensures cacheTTL == (if ttl <= 0 then 60 else ttl) && cacheMax == (if max <= 0 then 256 else max)
    {
      this.actions, this.hasSource := actions, hasSource;
      cacheTTL := if ttl <= 0 then 60 else ttl;
      cacheMax := if max <= 0 then 256 else max;
      list, index := [], map[];
    }

    method LookupCache(k: Key, now: int) returns (v: Option<bool>)
      requires Valid()
      modifies this
      ensures Valid() && State() == LookedUp(old(State()), cacheMax, k, now)
      ensures v == Fresh(old(State()), k, now)
    {
      if k !in index {
        return None;
      }
      if now > index[k].expires {
        RemovedHeld(State(), k, cacheMax);
        list := Without(list, k);
        index := index - {k};
        return None;
      }
      MovedHeld(State(), k, cacheMax);
      list := [k] + Without(list, k);
      return Some(index[k].verdict);
    }

    /** Insert first, then evict while over the cap. */
    method StoreCache(k: Key, verdict: bool, now: int)
      requires Valid()
      modifies this
      ensures Valid() && State() == Inserted(old(State()), k, Entry(verdict, now + cacheTTL), cacheMax)
    {
      ghost var c, e := State(), Entry(verdict, now + cacheTTL);
      InsertedHeld(c, k, e, cacheMax);
      if k in index {
        InsertedInPlace(c, k, e, cacheMax);
        index := index[k := Entry(verdict, now + cacheTTL)];
        list := [k] + Without(list, k);
        return;
      }
      InsertThenEvict(c, k, e, cacheMax);
      list := [k] + list;
      index := index[k := Entry(verdict, now + cacheTTL)];
      EvictOverCap();
    }

    /** The eviction loop of storeCache. */
    method EvictOverCap()
      requires cacheMax > 0 && NoDup(list) && forall x :: x in list <==> x in index
      modifies this
      ensures list == Take(old(list), cacheMax) && index == Keep(old(index), list)
    {
      while |list| > cacheMax
        invariant |list| <= |old(list)| && list == old(list)[..|list|]
        invariant |list| < |old(list)| ==> |list| >= cacheMax
        invariant forall x :: x in list <==> x in index
        invariant forall x | x in index :: x in old(index) && index[x] == old(index)[x]
        decreases |list|
      {
        var oldest := list[|list| - 1];
        assert list == list[..|list| - 1] + [oldest];
        list := list[..|list| - 1];
        index := index - {oldest};
      }
      EvictedAll(old(index), old(list), cacheMax, index, list);
    }

    method InvalidateMaintainer(k: Key)
      requires Valid()
      modifies this
      ensures Valid() && State() == Invalidated(old(State()), k)
    {
      if k in index {
        RemovedHeld(State(), k, cacheMax);
        list := Without(list, k);
        index := index - {k};
      }
    }

    /** `answer` is what IsMaintainer would say now: None for an error. */
    method AllowFor(id: Identity, action: string, target: string, now: int, answer: Option<bool>) returns (ok: bool)
      requires Valid()
      modifies this
      ensures Valid()
      ensures State() == if Asks(actions, id, action, target) && hasSource
                         then Asked(old(State()), cacheMax, cacheTTL, Key(id.email, target), now, answer)
                         else old(State())
      ensures ok == Verdict(actions, hasSource, old(State()), id, action, target, now, answer)
      ensures action !in actions || actions[action] == Deny || actions[action] == Unrecognized ==> !ok
      ensures action in actions && actions[action] == Any ==> ok
      ensures action in actions && actions[action] == Authenticated ==> (ok <==> id.authenticated)
      ensures action in actions && actions[action].Group? ==> (ok <==> id.authenticated && actions[action].name in id.groups)
      ensures action in actions && actions[action] == Maintainer && !hasSource ==> !ok
      ensures ok && !id.authenticated ==> action in actions && actions[action] == Any
    {
      VerdictByGate(actions, hasSource, State(), id, action, target, now, answer);
      if action !in actions {
        return false;
      }
      if actions[action] != Maintainer {
        return Allow(actions, id, action);
      }
      if !id.authenticated || id.email == "" || target == "" {
        return false;
      }
      if !hasSource {
        return false;
      }
      var k := Key(id.email, target);
      var v := LookupCache(k, now);
      if v.Some? {
        return v.value;
      }
      if answer.None? {
        return false;
      }
      StoreCache(k, answer.value, now);
      return answer.value;
    }
  }

  // ----- Histories -----

  /** Grant or revoke, followed by InvalidateMaintainer before the next query; or a query, whose
      source call may fail. */
  datatype Event = Change(k: Key, maintains: bool) | Query(k: Key, now: int, sourceFails: bool)

  datatype World = World(truth: Truth, cache: Cache)

  function Answer(w: World, e: Event): Option<bool>
    requires e.Query?
  {
    if e.sourceFails then None else Some(w.truth(e.k))
  }

  function After(w: World, cacheMax: nat, ttl: int, e: Event): World {
    match e
    case Change(k, maintains) => World(x => if x == k then maintains else w.truth(x), Invalidated(w.cache, k))
    case Query(k, now, _) => w.(cache := Asked(w.cache, cacheMax, ttl, k, now, Answer(w, e)))
  }

  function AfterAll(truth: Truth, cacheMax: nat, ttl: int, es: seq<Event>): World {
    if es == [] then World(truth, Table(map[], []))
    else After(AfterAll(truth, cacheMax, ttl, es[..|es| - 1]), cacheMax, ttl, es[|es| - 1])
  }

  ghost predicate Truthful(w: World) {
    forall k | k in w.cache.entries :: w.cache.entries[k].verdict == w.truth(k)
  }

  lemma LookedUpKeeps(c: Cache, cacheMax: nat, k: Key, now: int)
    requires Held(c, cacheMax)
    ensures Held(LookedUp(c, cacheMax, k, now), cacheMax)
    ensures forall x | x in LookedUp(c, cacheMax, k, now).entries :: x in c.entries && LookedUp(c, cacheMax, k, now).entries[x] == c.entries[x]
    ensures Fresh(c, k, now).None? ==> k !in LookedUp(c, cacheMax, k, now).entries
  {
    if k in c.entries {
      RemovedHeld(c, k, cacheMax);
      MovedHeld(c, k, cacheMax);
    }
  }

  lemma AskedKeeps(c: Cache, cacheMax: nat, ttl: int, k: Key, now: int, answer: Option<bool>)
    requires cacheMax > 0 && Held(c, cacheMax)
    ensures var c' := Asked(c, cacheMax, ttl, k, now, answer);
            && Held(c', cacheMax)
            && (forall x | x in c'.entries && x != k :: x in c.entries && c'.entries[x] == c.entries[x])
            && (k in c'.entries ==> (k in c.entries && c'.entries[k] == c.entries[k]) || (answer.Some? && c'.entries[k].verdict == answer.value))
  {
    LookedUpKeeps(c, cacheMax, k, now);
    if answer.Some? {
      InsertedHeld(LookedUp(c, cacheMax, k, now), k, Entry(answer.value, now + ttl), cacheMax);
    }
  }

  lemma {:induction false} HistoryTruthful(truth: Truth, cacheMax: nat, ttl: int, es: seq<Event>)
    requires cacheMax > 0
    ensures Truthful(AfterAll(truth, cacheMax, ttl, es)) && Held(AfterAll(truth, cacheMax, ttl, es).cache, cacheMax)
  {
    if es != [] {
      var w, e := AfterAll(truth, cacheMax, ttl, es[..|es| - 1]), es[|es| - 1];
      HistoryTruthful(truth, cacheMax, ttl, es[..|es| - 1]);
      RemovedHeld(w.cache, e.k, cacheMax);
      if e.Query? {
        AskedKeeps(w.cache, cacheMax, ttl, e.k, e.now, Answer(w, e));
      }
    }
  }

  /** Some query of k among the events got this answer from the source, for an entry that runs out then. */
  ghost predicate Sourced(es: seq<Event>, ttl: int, k: Key, expires: int) {
    exists i :: 0 <= i < |es| && es[i].Query? && es[i].k == k && !es[i].sourceFails && expires == es[i].now + ttl
  }

  lemma SourcedLater(es: seq<Event>, e: Event, ttl: int, k: Key, expires: int)
    requires Sourced(es, ttl, k, expires)
    ensures Sourced(es + [e], ttl, k, expires)
  {
    var i :| 0 <= i < |es| && es[i].Query? && es[i].k == k && !es[i].sourceFails && expires == es[i].now + ttl;
    assert (es + [e])[i] == es[i];
  }

  lemma {:induction false} EntriesSourced(truth: Truth, cacheMax: nat, ttl: int, es: seq<Event>, k: Key)
    requires cacheMax > 0 && k in AfterAll(truth, cacheMax, ttl, es).cache.entries
    ensures Sourced(es, ttl, k, AfterAll(truth, cacheMax, ttl, es).cache.entries[k].expires)
  {
    if es != [] {
      var n := |es| - 1;
      var w, e := AfterAll(truth, cacheMax, ttl, es[..n]), es[n];
      assert es == es[..n] + [e];
      HistoryTruthful(truth, cacheMax, ttl, es[..n]);
      RemovedHeld(w.cache, e.k, cacheMax);
      EntryKept(w, cacheMax, ttl, e, k);
      if k in w.cache.entries && After(w, cacheMax, ttl, e).cache.entries[k] == w.cache.entries[k] {
        EntriesSourced(truth, cacheMax, ttl, es[..n], k);
        SourcedLater(es[..n], e, ttl, k, w.cache.entries[k].expires);
      }
    }
  }

  lemma EntryKept(w: World, cacheMax: nat, ttl: int, e: Event, k: Key)
    requires cacheMax > 0 && Held(w.cache, cacheMax) && k in After(w, cacheMax, ttl, e).cache.entries
    ensures var entry := After(w, cacheMax, ttl, e).cache.entries[k];
            || (k in w.cache.entries && entry == w.cache.entries[k])
            || (e.Query? && e.k == k && !e.sourceFails && entry.expires == e.now + ttl)
  {
    RemovedHeld(w.cache, e.k, cacheMax);
    if e.Query? {
      LookedUpKeeps(w.cache, cacheMax, e.k, e.now);
      if !e.sourceFails {
        InsertedHeld(LookedUp(w.cache, cacheMax, e.k, e.now), e.k, Entry(w.truth(e.k), e.now + ttl), cacheMax);
      }
    }
  }

  /** A cached verdict is only used while some query of that pair got its answer from the source no more
      than the ttl ago. */
  lemma HitIsRecent(truth: Truth, cacheMax: nat, ttl: int, es: seq<Event>, k: Key, now: int)
    requires cacheMax > 0 && Fresh(AfterAll(truth, cacheMax, ttl, es).cache, k, now).Some?
    ensures exists i :: 0 <= i < |es| && es[i].Query? && es[i].k == k && !es[i].sourceFails && now - es[i].now <= ttl
  {
    EntriesSourced(truth, cacheMax, ttl, es, k);
  }

  /** And one that a query got from the source is used by the next query of that pair within the ttl. */
  lemma AnswerIsCached(w: World, cacheMax: nat, ttl: int, k: Key, now: int, later: int)
    requires cacheMax > 0 && Held(w.cache, cacheMax) && Fresh(w.cache, k, now).None?
    ensures Fresh(After(w, cacheMax, ttl, Query(k, now, false)).cache, k, later)
              == if later <= now + ttl then Some(w.truth(k)) else None
  {
    LookedUpKeeps(w.cache, cacheMax, k, now);
    InsertedHeld(LookedUp(w.cache, cacheMax, k, now), k, Entry(w.truth(k), now + ttl), cacheMax);
  }

  /** What one event does to the list. */
  function Effect(w: World, e: Event): seq<Op<Key>> {
    match e
    case Change(k, _) => if k in w.cache.entries then [Drop(k)] else []
    case Query(k, now, fails) =>
      if Fresh(w.cache, k, now).Some? then [Touch(k)]
      else (if k in w.cache.entries then [Drop(k)] else []) + if fails then [] else [Touch(k)]
  }

  function Effects(truth: Truth, cacheMax: nat, ttl: int, es: seq<Event>): seq<Op<Key>> {
    if es == [] then []
    else
      var n := |es| - 1;
      Effects(truth, cacheMax, ttl, es[..n]) + Effect(AfterAll(truth, cacheMax, ttl, es[..n]), es[n])
  }

  lemma {:induction false} RefinesLru(truth: Truth, cacheMax: nat, ttl: int, es: seq<Event>)
    ensures AfterAll(truth, cacheMax, ttl, es).cache.order == Run([], Effects(truth, cacheMax, ttl, es), cacheMax)
  {
    if es != [] {
      var n := |es| - 1;
      RefinesLru(truth, cacheMax, ttl, es[..n]);
      var w := AfterAll(truth, cacheMax, ttl, es[..n]);
      var s := w.cache.order;
      RunAppend([], Effects(truth, cacheMax, ttl, es[..n]), Effect(w, es[n]), cacheMax);
      EffectRuns(w, cacheMax, ttl, es[n]);
    }
  }

  lemma EffectRuns(w: World, cacheMax: nat, ttl: int, e: Event)
    ensures After(w, cacheMax, ttl, e).cache.order == Run(w.cache.order, Effect(w, e), cacheMax)
  {
    var s := w.cache.order;
    RunOne(s, Drop(e.k), cacheMax);
    RunOne(s, Touch(e.k), cacheMax);
    RunAppend(s, [Drop(e.k)], [Touch(e.k)], cacheMax);
    RunOne(Without(s, e.k), Touch(e.k), cacheMax);
    assert [Drop(e.k)] + [] == [Drop(e.k)] && [] + [Touch(e.k)] == [Touch(e.k)];
  }

  lemma RunOne(s: seq<Key>, op: Op<Key>, cap: nat)
    ensures Run(s, [op], cap) == Apply(s, op, cap)
  {
    assert [op][..0] == [];
  }

  /** In any such history, with whatever evictions, expiries and source failures before it, a
      query whose own source call does not fail is answered as if there were no cache; one whose
      source call fails is never allowed more than that, and leaves no verdict behind. */
  lemma CacheIsTransparent(actions: Actions, truth: Truth, cacheMax: nat, ttl: int, es: seq<Event>,
    id: Identity, action: string, target: string, now: int, sourceFails: bool)
    requires cacheMax > 0
    ensures var w, k := AfterAll(truth, cacheMax, ttl, es), Key(id.email, target);
            var answer := Answer(w, Query(k, now, sourceFails));
            var ok := Verdict(actions, true, w.cache, id, action, target, now, answer);
            && (!sourceFails ==> ok == Uncached(actions, w.truth, id, action, target))
            && (ok ==> Uncached(actions, w.truth, id, action, target))
            && (sourceFails && Fresh(w.cache, k, now).None? ==> k !in Asked(w.cache, cacheMax, ttl, k, now, answer).entries)
  {
    HistoryTruthful(truth, cacheMax, ttl, es);
    LookedUpKeeps(AfterAll(truth, cacheMax, ttl, es).cache, cacheMax, Key(id.email, target), now);
  }
}

/** The source-tree cache of code navigation (internal/codenav/codenav.go): entries are built
    once and never expire. */
module Resolver {
  import opened Lru
  import opened Wrappers

  /** Entries are numbered in the order they are made. Each is built once, so equal numbers mean
      one shared result. */
  datatype World = World(table: Table<string, nat>, builds: nat)

  function Resolved(w: World, key: string, limit: nat): World {
    if key in w.table.entries then w.(table := Moved(w.table, key, limit))
    else World(Inserted(w.table, key, w.builds, limit), w.builds + 1)
  }

  class SourceResolver {
    const maxEntries: int
    var entries: map<string, nat>
    var order: seq<string>
    var builds: nat

    function Limit(): nat {
      if maxEntries <= 0 then 32 else maxEntries
    }

    ghost function State(): Table<string, nat>
      reads this
    {
      Table(entries, order)
    }

    ghost predicate Valid()
      reads this
    {
      Held(State(), Limit()) && forall k | k in entries :: entries[k] < builds
    }

    constructor (maxEntries: int)
      ensures Valid() && this.maxEntries == maxEntries && order == [] && builds == 0
    {
      this.maxEntries := maxEntries;
      entries, order, builds := map[], [], 0;
    }

    method Resolve(m: string, version: string) returns (e: Option<nat>)
      requires Valid()
      modifies this
      ensures Valid()
      ensures m == "" || version == "" ==> e == None && State() == old(State()) && builds == old(builds)
      ensures m != "" && version != "" ==>
                var limit, key := (if maxEntries <= 0 then 32 else maxEntries), m + "@" + version;
                var w := Resolved(World(old(State()), old(builds)), key, limit);
                State() == w.table && builds == w.builds && key in entries && e == Some(entries[key])
    {
      if m == "" || version == "" {
        return None;
      }
      var entry := EntryFor(m + "@" + version);
      e := Some(entry);
    }

    /** A resident key keeps its entry, any other gets a new one; either way it becomes the
        newest key. */
    method EntryFor(key: string) returns (e: nat)
      requires Valid()
      modifies this
      ensures Valid()
      ensures World(State(), builds) == Resolved(World(old(State()), old(builds)), key, Limit())
      ensures key in entries && e == entries[key]
    {
      if key in entries {
        MovedHeld(State(), key, Limit());
        order := [key] + Without(order, key);
        return entries[key];
      }
      e := builds;
      InsertedHeld(State(), key, e, Limit());
      InsertThenEvict(State(), key, e, Limit());
      builds := builds + 1;
      order := [key] + order;
      entries := entries[key := e];
      EvictIfFull();
    }

    method EvictIfFull()
      requires NoDup(order) && forall x :: x in order <==> x in entries
      modifies `entries, `order
      ensures order == Take(old(order), Limit()) && entries == Keep(old(entries), order)
    {
      while |order| > Limit()
        invariant |order| <= |old(order)| && order == old(order)[..|order|]
        invariant |order| < |old(order)| ==> |order| >= Limit()
        invariant forall x :: x in order <==> x in entries
        invariant forall x | x in entries :: x in old(entries) && entries[x] == old(entries)[x]
        decreases |order|
      {
        var oldest := order[|order| - 1];
        assert order == order[..|order| - 1] + [oldest];
        order := order[..|order| - 1];
        entries := entries - {oldest};
      }
      EvictedAll(old(entries), old(order), Limit(), entries, order);
    }
  }

  // ----- Histories -----

  function AfterAll(keys: seq<string>, limit: nat): World {
    if keys == [] then World(Table(map[], []), 0)
    else Resolved(AfterAll(keys[..|keys| - 1], limit), keys[|keys| - 1], limit)
  }

  function Touches(keys: seq<string>): seq<Op<string>> {
    seq(|keys|, i requires 0 <= i < |keys| => Touch(keys[i]))
  }

  ghost predicate Numbered(w: World, limit: nat) {
    Held(w.table, limit) && forall k | k in w.table.entries :: w.table.entries[k] < w.builds
  }

  /** The key resolved is resident; the others that stay keep their numbers. */
  lemma StepNumbers(w: World, key: string, limit: nat)
    requires Numbered(w, limit) && limit > 0
    ensures var w' := Resolved(w, key, limit);
            && Numbered(w', limit) && w.builds <= w'.builds
            && key in w'.table.entries
            && w'.table.entries[key] == (if key in w.table.entries then w.table.entries[key] else w.builds)
            && (forall k | k in w'.table.entries && k != key :: k in w.table.entries && w'.table.entries[k] == w.table.entries[k])
  {
    if key in w.table.entries {
      MovedHeld(w.table, key, limit);
    } else {
      InsertedHeld(w.table, key, w.builds, limit);
    }
  }

  lemma {:induction false} RefinesLru(keys: seq<string>, limit: nat)
    requires limit > 0
    ensures Numbered(AfterAll(keys, limit), limit)
    ensures AfterAll(keys, limit).table.order == Run([], Touches(keys), limit)
  {
    if keys != [] {
      var n := |keys| - 1;
      RefinesLru(keys[..n], limit);
      StepNumbers(AfterAll(keys[..n], limit), keys[n], limit);
      assert Touches(keys)[..n] == Touches(keys[..n]);
    }
  }

  /** A key keeps its number for as long as it stays resident. */
  lemma {:induction false} NumberKept(before: seq<string>, key: string, after: seq<string>, limit: nat)
    requires limit > 0 && key !in after
    ensures var w0, w := AfterAll(before + [key], limit), AfterAll(before + [key] + after, limit);
            && key in w0.table.entries && w0.table.entries[key] < w.builds
            && (key in w.table.entries ==> w.table.entries[key] == w0.table.entries[key])
  {
    var all := before + [key] + after;
    if after == [] {
      assert all == before + [key] && all[..|all| - 1] == before;
      RefinesLru(before, limit);
      StepNumbers(AfterAll(before, limit), key, limit);
    } else {
      var n := |after| - 1;
      assert all[..|all| - 1] == before + [key] + after[..n];
      NumberKept(before, key, after[..n], limit);
      RefinesLru(before + [key] + after[..n], limit);
      StepNumbers(AfterAll(before + [key] + after[..n], limit), after[n], limit);
    }
  }

  /** Resolving a key a second time shares the first build exactly when fewer than the limit of
      other keys were resolved in between, in whatever order and however often. */
  lemma SharedIffRecent(before: seq<string>, key: string, after: seq<string>, limit: nat)
    requires limit > 0 && key !in after
    ensures var w0, w := AfterAll(before + [key], limit), AfterAll(before + [key] + after, limit);
            var again := Resolved(w, key, limit);
            && key in w0.table.entries && key in again.table.entries
            && (again.table.entries[key] == w0.table.entries[key] <==> |set k | k in after| < limit)
  {
    var all := before + [key] + after;
    NumberKept(before, key, after, limit);
    RefinesLru(all, limit);
    assert Touches(all) == Touches(before) + [Touch(key)] + Touches(after);
    assert NoDup<string>([]);
    LostOnlyByOverflow([], Touches(before), Touches(after), limit, key);
    TouchesKeys(after);
    var w := AfterAll(all, limit);
    if key !in w.table.entries {
      InsertedHeld(w.table, key, w.builds, limit);
    }
  }

  lemma TouchesKeys(keys: seq<string>)
    ensures TouchedKeys(Touches(keys)) == set k | k in keys
  {
    forall k | k in keys
      ensures k in TouchedKeys(Touches(keys))
    {
      var i :| 0 <= i < |keys| && keys[i] == k;
      assert Touches(keys)[i] == Touch(k);
      assert Touch(k) in Touches(keys);
    }
  }
}
