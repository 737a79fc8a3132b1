/** How long the two expiring caches remember: a key that was just stored or hit stays until it
    expires, as long as fewer other keys than there is room for come in between
    (internal/backend/cache.go, internal/policy/evaluator.go). */
module ResponseLasts {
  import opened Lru
  import opened ResponseCache
  import opened Wrappers

  function KeysOf(ops: seq<CacheOp>): set<string> {
    set op | op in ops :: op.key
  }

  lemma EffectsMore(capacity: int, ops: seq<CacheOp>, op: CacheOp)
    ensures Effects(capacity, ops + [op]) == Effects(capacity, ops) + Effect(AfterAll(capacity, ops), op)
    ensures forall o | o in Effect(AfterAll(capacity, ops), op) :: o.k == op.key
  {
    assert (ops + [op])[..|ops|] == ops;
  }

  /** What calls of other keys do to the list. */
  lemma {:induction false} OtherEffects(capacity: int, first: seq<CacheOp>, after: seq<CacheOp>, key: string) returns (tail: seq<Op<string>>)
    requires key !in KeysOf(after)
    ensures Effects(capacity, first + after) == Effects(capacity, first) + tail
    ensures Untouched(tail, key) && TouchedKeys(tail) <= KeysOf(after)
  {
    if after == [] {
      tail := [];
      assert first + after == first;
    } else {
      var rest, op := after[..|after| - 1], after[|after| - 1];
      LastOf(after, rest, op);
      var tail' := OtherEffects(capacity, first, rest, key);
      tail := tail' + Effect(AfterAll(capacity, first + rest), op);
      OneMore(capacity, first, rest, op, tail');
      Regroup(first, rest, [op]);
      TailGrows(tail', Effect(AfterAll(capacity, first + rest), op), key, op.key, KeysOf(after));
    }
  }

  lemma OneMore(capacity: int, first: seq<CacheOp>, rest: seq<CacheOp>, op: CacheOp, tail: seq<Op<string>>)
    requires Effects(capacity, first + rest) == Effects(capacity, first) + tail
    ensures Effects(capacity, first + rest + [op]) == Effects(capacity, first) + (tail + Effect(AfterAll(capacity, first + rest), op))
    ensures forall o | o in Effect(AfterAll(capacity, first + rest), op) :: o.k == op.key
  {
    EffectsMore(capacity, first + rest, op);
    Regroup(Effects(capacity, first), tail, Effect(AfterAll(capacity, first + rest), op));
  }

  lemma Regroup<T>(a: seq<T>, b: seq<T>, c: seq<T>)
    ensures a + b + c == a + (b + c)
  {
  }

  lemma LastOf(after: seq<CacheOp>, rest: seq<CacheOp>, op: CacheOp)
    requires after != [] && rest == after[..|after| - 1] && op == after[|after| - 1]
    ensures KeysOf(rest) <= KeysOf(after) && op.key in KeysOf(after) && after == rest + [op]
  {
    assert forall o | o in rest :: o in after;
    assert op in after;
  }

  lemma TailGrows<K(!new)>(tail: seq<Op<K>>, more: seq<Op<K>>, k: K, other: K, ks: set<K>)
    requires Untouched(tail, k) && TouchedKeys(tail) <= ks && other != k && other in ks
    requires forall o | o in more :: o.k == other
    ensures Untouched(tail + more, k) && TouchedKeys(tail + more) <= ks
  {
    assert forall o | o in tail + more :: o in tail || o in more;
  }

  lemma {:induction false} EntryStays(capacity: int, first: seq<CacheOp>, after: seq<CacheOp>, key: string)
    requires capacity > 0 && key !in KeysOf(after)
    ensures var c, c' := AfterAll(capacity, first), AfterAll(capacity, first + after);
            key in c'.entries ==> key in c.entries && c'.entries[key] == c.entries[key]
  {
    if after == [] {
      assert first + after == first;
    } else {
      var n := |after| - 1;
      var op, all := after[n], first + after;
      assert forall o | o in after[..n] :: o in after;
      assert op in after && op.key != key;
      assert all[..|all| - 1] == first + after[..n] && all[|all| - 1] == op;
      EntryStays(capacity, first, after[..n], key);
      var c := AfterAll(capacity, first + after[..n]);
      EntriesAreLatest(capacity, first + after[..n]);
      match op
      case Get(k, now) => GotKeeps(c, capacity, k, now);
      case Put(k, body, ttl, now) => StoredKeeps(c, capacity, k, body, ttl, now);
    }
  }

  /** A call that stores a key or hits it. */
  predicate Uses(c: Cache, op: CacheOp) {
    match op
    case Put(_, _, ttl, _) => ttl > 0
    case Get(key, now) => key in c.entries && now <= c.entries[key].expires
  }

  lemma UseTouches(capacity: int, before: seq<CacheOp>, op: CacheOp)
    requires capacity > 0 && Uses(AfterAll(capacity, before), op)
    ensures Effects(capacity, before + [op]) == Effects(capacity, before) + [Touch(op.key)]
    ensures var c := AfterAll(capacity, before + [op]);
            && op.key in c.entries
            && c.entries[op.key] == (if op.Put? then Entry(op.body, op.now + op.ttl) else AfterAll(capacity, before).entries[op.key])
  {
    assert (before + [op])[..|before|] == before;
    if op.Put? {
      EntriesAreLatest(capacity, before);
      StoredKeeps(AfterAll(capacity, before), capacity, op.key, op.body, op.ttl, op.now);
    } else {
      EntriesAreLatest(capacity, before);
      MovedStays(AfterAll(capacity, before), capacity, op.key);
    }
  }

  lemma MovedStays(c: Cache, capacity: int, key: string)
    requires key in c.entries
    ensures Moved(c, key, Cap(capacity)).entries == c.entries
  {
  }

  /** So a key that was stored or hit is still a hit until it expires, if meanwhile fewer than capacity
      other keys were asked for or stored. */
  lemma HitLasts(capacity: int, before: seq<CacheOp>, op: CacheOp, after: seq<CacheOp>, now: int)
    requires capacity > 0 && Uses(AfterAll(capacity, before), op)
    requires (forall o | o in after :: o.key != op.key) && |set o | o in after :: o.key| < capacity
    ensures var e := if op.Put? then Entry(op.body, op.now + op.ttl) else AfterAll(capacity, before).entries[op.key];
            Fresh(AfterAll(capacity, before + [op] + after), op.key, now) == if now <= e.expires then Some(e.body) else None
  {
    var first, all := before + [op], before + [op] + after;
    UseTouches(capacity, before, op);
    var tail := OtherEffects(capacity, first, after, op.key);
    assert KeysOf(after) == set o | o in after :: o.key;
    SmallerSet(TouchedKeys(tail), KeysOf(after));
    RefinesLru(capacity, all);
    assert NoDup<string>([]);
    assert Effects(capacity, all) == Effects(capacity, before) + [Touch(op.key)] + tail;
    LostOnlyByOverflow([], Effects(capacity, before), tail, capacity, op.key);
    EntriesAreLatest(capacity, all);
    EntryStays(capacity, first, after, op.key);
  }

  lemma {:induction false} SmallerSet<T>(a: set<T>, b: set<T>)
    requires a <= b
    ensures |a| <= |b|
  {
    if a != {} {
      var x :| x in a;
      SmallerSet(a - {x}, b - {x});
    }
  }
}

module VerdictLasts {
  import ResponseLasts
  import opened Lru
  import opened Evaluator
  import opened Wrappers

  function PairsOf(es: seq<Event>): set<Key> {
    set e | e in es :: e.k
  }

  lemma EffectsMore(truth: Truth, cacheMax: nat, ttl: int, es: seq<Event>, e: Event)
    ensures Effects(truth, cacheMax, ttl, es + [e]) == Effects(truth, cacheMax, ttl, es) + Effect(AfterAll(truth, cacheMax, ttl, es), e)
    ensures forall o | o in Effect(AfterAll(truth, cacheMax, ttl, es), e) :: o.k == e.k
  {
    assert (es + [e])[..|es|] == es;
  }

  lemma {:induction false} OtherEffects(truth: Truth, cacheMax: nat, ttl: int, first: seq<Event>, after: seq<Event>, k: Key) returns (tail: seq<Op<Key>>)
    requires k !in PairsOf(after)
    ensures Effects(truth, cacheMax, ttl, first + after) == Effects(truth, cacheMax, ttl, first) + tail
    ensures Untouched(tail, k) && TouchedKeys(tail) <= PairsOf(after)
  {
    if after == [] {
      tail := [];
      assert first + after == first;
    } else {
      var rest, e := after[..|after| - 1], after[|after| - 1];
      LastOf(after, rest, e);
      var tail' := OtherEffects(truth, cacheMax, ttl, first, rest, k);
      tail := tail' + Effect(AfterAll(truth, cacheMax, ttl, first + rest), e);
      OneMore(truth, cacheMax, ttl, first, rest, e, tail');
      ResponseLasts.Regroup(first, rest, [e]);
      ResponseLasts.TailGrows(tail', Effect(AfterAll(truth, cacheMax, ttl, first + rest), e), k, e.k, PairsOf(after));
    }
  }

  lemma OneMore(truth: Truth, cacheMax: nat, ttl: int, first: seq<Event>, rest: seq<Event>, e: Event, tail: seq<Op<Key>>)
    requires Effects(truth, cacheMax, ttl, first + rest) == Effects(truth, cacheMax, ttl, first) + tail
    ensures Effects(truth, cacheMax, ttl, first + rest + [e])
              == Effects(truth, cacheMax, ttl, first) + (tail + Effect(AfterAll(truth, cacheMax, ttl, first + rest), e))
    ensures forall o | o in Effect(AfterAll(truth, cacheMax, ttl, first + rest), e) :: o.k == e.k
  {
    EffectsMore(truth, cacheMax, ttl, first + rest, e);
    ResponseLasts.Regroup(Effects(truth, cacheMax, ttl, first), tail, Effect(AfterAll(truth, cacheMax, ttl, first + rest), e));
  }

  lemma LastOf(after: seq<Event>, rest: seq<Event>, e: Event)
    requires after != [] && rest == after[..|after| - 1] && e == after[|after| - 1]
    ensures PairsOf(rest) <= PairsOf(after) && e.k in PairsOf(after) && after == rest + [e]
  {
    assert forall x | x in rest :: x in after;
    assert e in after;
  }

  lemma {:induction false} VerdictStays(truth: Truth, cacheMax: nat, ttl: int, first: seq<Event>, after: seq<Event>, k: Key)
    requires cacheMax > 0 && k !in PairsOf(after)
    ensures var w, w' := AfterAll(truth, cacheMax, ttl, first), AfterAll(truth, cacheMax, ttl, first + after);
            k in w'.cache.entries ==> k in w.cache.entries && w'.cache.entries[k] == w.cache.entries[k]
  {
    if after == [] {
      assert first + after == first;
    } else {
      var n := |after| - 1;
      var e, all := after[n], first + after;
      assert forall x | x in after[..n] :: x in after;
      assert e in after && e.k != k;
      assert all[..|all| - 1] == first + after[..n] && all[|all| - 1] == e;
      VerdictStays(truth, cacheMax, ttl, first, after[..n], k);
      HistoryTruthful(truth, cacheMax, ttl, first + after[..n]);
      if k in AfterAll(truth, cacheMax, ttl, all).cache.entries {
        EntryKept(AfterAll(truth, cacheMax, ttl, first + after[..n]), cacheMax, ttl, e, k);
      }
    }
  }

  lemma AnsweredTouches(truth: Truth, cacheMax: nat, ttl: int, before: seq<Event>, k: Key, t: int) returns (upTo: seq<Op<Key>>)
    requires cacheMax > 0
    ensures Effects(truth, cacheMax, ttl, before + [Query(k, t, false)]) == upTo + [Touch(k)]
  {
    var e, w := Query(k, t, false), AfterAll(truth, cacheMax, ttl, before);
    assert (before + [e])[..|before|] == before;
    upTo := Effects(truth, cacheMax, ttl, before) + Effect(w, e)[..|Effect(w, e)| - 1];
  }

  /** The verdict of a pair that was just asked for is kept, if meanwhile the pair is left alone and fewer
      than cacheMax other pairs are asked for or changed; so until it expires, the source is not asked. */
  lemma VerdictLasts(truth: Truth, cacheMax: nat, ttl: int, before: seq<Event>, k: Key, t: int, after: seq<Event>)
    requires cacheMax > 0 && (forall e | e in after :: e.k != k) && |set e | e in after :: e.k| < cacheMax
    ensures var first := before + [Query(k, t, false)];
            var c, c' := AfterAll(truth, cacheMax, ttl, first).cache, AfterAll(truth, cacheMax, ttl, first + after).cache;
            k in c.entries && k in c'.entries && c'.entries[k] == c.entries[k]
  {
    var first := before + [Query(k, t, false)];
    var upTo := AnsweredTouches(truth, cacheMax, ttl, before, k, t);
    Remembered(truth, cacheMax, ttl, first, upTo, k, after);
    VerdictStays(truth, cacheMax, ttl, first, after, k);
  }

  lemma Remembered(truth: Truth, cacheMax: nat, ttl: int, first: seq<Event>, upTo: seq<Op<Key>>, k: Key, after: seq<Event>)
    requires cacheMax > 0 && (forall e | e in after :: e.k != k) && |set e | e in after :: e.k| < cacheMax
    requires Effects(truth, cacheMax, ttl, first) == upTo + [Touch(k)]
    ensures k in AfterAll(truth, cacheMax, ttl, first + after).cache.entries
  {
    var tail := OtherEffects(truth, cacheMax, ttl, first, after, k);
    assert PairsOf(after) == set e | e in after :: e.k;
    ResponseLasts.SmallerSet(TouchedKeys(tail), PairsOf(after));
    RefinesLru(truth, cacheMax, ttl, first + after);
    assert NoDup<Key>([]);
    LostOnlyByOverflow([], upTo, tail, cacheMax, k);
    HistoryTruthful(truth, cacheMax, ttl, first + after);
  }
}
