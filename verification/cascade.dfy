/** The federation cascade (internal/backend/probe.go, internal/backend/cascade.go): the primary,
    then every upstream at once, and the collision log. */
module Cascade {
  import opened Wrappers

  // ----- Collision log -----

  datatype Kind = Local | HttpUpstream | CollisionShadowed

  function KindName(k: Kind): string {
    match k
    case Local => "local"
    case HttpUpstream => "http-upstream"
    case CollisionShadowed => "collision-shadowed"
  }

  datatype Call = Call(m: string, version: string, source: string, kind: Kind, now: int)

  /** Five minutes, in seconds. */
  const WINDOW := 300

  function Key(c: Call): string {
    c.m + ['@'] + AfterModule(c)
  }

  function AfterModule(c: Call): string {
    c.version + [':'] + AfterVersion(c)
  }

  function AfterVersion(c: Call): string {
    c.source + [':'] + KindName(c.kind)
  }

  /** The key, in one piece: "m@version:source:kind". */
  lemma KeyExact(c: Call)
    ensures Key(c) == c.m + "@" + c.version + ":" + c.source + ":"
                      + match c.kind case Local => "local" case HttpUpstream => "http-upstream" case CollisionShadowed => "collision-shadowed"
  {
    assert Key(c) == c.m + "@" + (c.version + ":" + (c.source + ":" + KindName(c.kind)));
  }

  /** When each key last fired, and what was passed to the hook. */
  datatype Log = Log(last: map<string, int>, fired: seq<Call>)

  function Logged(h: Log, c: Call): Log {
    if Key(c) in h.last && c.now - h.last[Key(c)] < WINDOW then h
    else Log(h.last[Key(c) := c.now], h.fired + [c])
  }

  function LoggedAll(h: Log, calls: seq<Call>): Log {
    if calls == [] then h else Logged(LoggedAll(h, calls[..|calls| - 1]), calls[|calls| - 1])
  }

  lemma {:induction false} LoggedAppend(h: Log, a: seq<Call>, b: seq<Call>)
    ensures LoggedAll(h, a + b) == LoggedAll(LoggedAll(h, a), b)
  {
    if b == [] {
      assert a + b == a;
    } else {
      LoggedAppend(h, a, b[..|b| - 1]);
      assert (a + b)[..|a + b| - 1] == a + b[..|b| - 1];
    }
  }

  const NO_LOG := Log(map[], [])

  /** The last firing of every key is recorded, and firings of one key are a window apart. */
  ghost predicate Spaced(h: Log) {
    && (forall c | c in h.fired :: Key(c) in h.last && c.now <= h.last[Key(c)])
    && (forall i, j | 0 <= i < j < |h.fired| && Key(h.fired[i]) == Key(h.fired[j]) ::
          h.fired[j].now >= h.fired[i].now + WINDOW)
  }

  /** Some firing of c's key is less than a window older than c. */
  ghost predicate Heard(h: Log, c: Call) {
    exists f :: f in h.fired && Key(f) == Key(c) && c.now < f.now + WINDOW
  }

  ghost predicate LastFired(h: Log) {
    forall k | k in h.last :: exists f :: f in h.fired && Key(f) == k && f.now == h.last[k]
  }

  lemma LoggedSpaced(h: Log, c: Call)
    requires Spaced(h)
    ensures Spaced(Logged(h, c))
  {
    var h' := Logged(h, c);
    if h' != h {
      forall d | d in h'.fired
        ensures Key(d) in h'.last && d.now <= h'.last[Key(d)]
      {
        assert d in h.fired || d == c;
      }
      forall i, j | 0 <= i < j < |h'.fired| && Key(h'.fired[i]) == Key(h'.fired[j])
        ensures h'.fired[j].now >= h'.fired[i].now + WINDOW
      {
        assert h'.fired[i] == h.fired[i] && h.fired[i] in h.fired;
      }
    }
  }

  lemma LoggedHeard(h: Log, c: Call)
    requires LastFired(h)
    ensures LastFired(Logged(h, c)) && Heard(Logged(h, c), c)
    ensures forall d | Heard(h, d) :: Heard(Logged(h, c), d)
  {
    var h' := Logged(h, c);
    assert forall f | f in h.fired :: f in h'.fired;
    if h' != h {
      assert h'.fired[|h.fired|] == c;
      forall k | k in h'.last
        ensures exists f :: f in h'.fired && Key(f) == k && f.now == h'.last[k]
      {
        if k != Key(c) {
          var f :| f in h.fired && Key(f) == k && f.now == h.last[k];
          assert f in h'.fired;
        }
      }
    }
  }

  lemma {:induction false} AllSpaced(calls: seq<Call>)
    ensures Spaced(LoggedAll(NO_LOG, calls))
  {
    if calls != [] {
      AllSpaced(calls[..|calls| - 1]);
      LoggedSpaced(LoggedAll(NO_LOG, calls[..|calls| - 1]), calls[|calls| - 1]);
    }
  }

  lemma {:induction false} AllHeard(calls: seq<Call>)
    ensures LastFired(LoggedAll(NO_LOG, calls))
    ensures forall c | c in calls :: Heard(LoggedAll(NO_LOG, calls), c)
  {
    if calls != [] {
      var before, c := calls[..|calls| - 1], calls[|calls| - 1];
      AllHeard(before);
      LoggedHeard(LoggedAll(NO_LOG, before), c);
      assert forall d | d in calls :: d in before || d == c;
    }
  }

  /** However the calls come, and whatever the clock shows: firings of one key are at least five
      minutes apart, and no call goes unheard, since each has a firing of its key less than five
      minutes before it. */
  lemma HookSpacing(calls: seq<Call>)
    ensures var h := LoggedAll(NO_LOG, calls);
            && (forall c | c in calls :: Heard(h, c))
            && (forall c | c in calls :: exists f :: f in h.fired && Key(f) == Key(c) && c.now < f.now + 300)
            && (forall i, j | 0 <= i < j < |h.fired| && Key(h.fired[i]) == Key(h.fired[j]) ::
                  h.fired[j].now >= h.fired[i].now + 300)
  {
    AllSpaced(calls);
    AllHeard(calls);
  }

  /** The same for the firings of one tuple. */
  lemma TupleSpacing(calls: seq<Call>, i: nat, j: nat)
    requires var h := LoggedAll(NO_LOG, calls); i < j < |h.fired| && h.fired[i].(now := 0) == h.fired[j].(now := 0)
    ensures var h := LoggedAll(NO_LOG, calls); h.fired[j].now >= h.fired[i].now + 300
  {
    HookSpacing(calls);
    var h := LoggedAll(NO_LOG, calls);
    assert Key(h.fired[i]) == Key(h.fired[i].(now := 0)) == Key(h.fired[j]);
  }

  /** The module name holds no '@' and the version no ':'. */
  predicate Clean(c: Call) {
    '@' !in c.m && ':' !in c.version
  }

  /** The key tells clean tuples apart. */
  lemma KeyInjective(a: Call, b: Call)
    requires Clean(a) && Clean(b)
    ensures Key(a) == Key(b) ==> a.(now := 0) == b.(now := 0)
  {
    if Key(a) == Key(b) {
      CutFirst(a.m, AfterModule(a), b.m, AfterModule(b), '@');
      VersionsAgree(a, b);
    }
  }

  lemma VersionsAgree(a: Call, b: Call)
    requires ':' !in a.version && ':' !in b.version && AfterModule(a) == AfterModule(b)
    ensures a.version == b.version && a.source == b.source && a.kind == b.kind
  {
    CutFirst(a.version, AfterVersion(a), b.version, AfterVersion(b), ':');
    KindNames(a.kind, b.kind);
    CutLast(a.source, KindName(a.kind), b.source, KindName(b.kind), ':');
  }

  lemma KindNames(k: Kind, l: Kind)
    ensures ':' !in KindName(k) && ':' !in KindName(l)
    ensures KindName(k) == KindName(l) ==> k == l
  {
    assert KindName(Local)[0] == 'l' && KindName(HttpUpstream)[0] == 'h' && KindName(CollisionShadowed)[0] == 'c';
  }

  /** Cutting at the first c. */
  lemma CutFirst(x: string, y: string, x': string, y': string, c: char)
    requires c !in x && c !in x' && x + [c] + y == x' + [c] + y'
    ensures x == x' && y == y'
  {
    NotBefore(x, y, x', y', c);
    NotBefore(x', y', x, y, c);
    var s := x + [c] + y;
    assert x == s[..|x|] && x' == s[..|x'|];
    assert y == s[|x| + 1..] && y' == s[|x'| + 1..];
  }

  lemma NotBefore(x: string, y: string, x': string, y': string, c: char)
    requires c !in x' && x + [c] + y == x' + [c] + y'
    ensures |x'| <= |x|
  {
    assert (x' + [c] + y')[|x|] == (x + [c] + y)[|x|] == c;
  }

  /** Cutting at the last c. */
  lemma CutLast(x: string, y: string, x': string, y': string, c: char)
    requires c !in y && c !in y' && x + [c] + y == x' + [c] + y'
    ensures x == x' && y == y'
  {
    NotAfter(x, y, x', y', c);
    NotAfter(x', y', x, y, c);
    var s := x + [c] + y;
    assert x == s[..|x|] && x' == s[..|x'|];
    assert y == s[|x| + 1..] && y' == s[|x'| + 1..];
  }

  lemma NotAfter(x: string, y: string, x': string, y': string, c: char)
    requires c !in y' && x + [c] + y == x' + [c] + y'
    ensures |x| <= |x'|
  {
    assert (x' + [c] + y')[|x|] == (x + [c] + y)[|x|] == c;
  }

  /** And no tuple that is not clean can be added to them: each has the key of a clean tuple that is
      another one, found by cutting the key at its first '@' and then at its first ':'. */
  lemma CleanTwin(c: Call) returns (d: Call)
    requires !Clean(c)
    ensures Clean(d) && Key(d) == Key(c) && d.(now := 0) != c.(now := 0)
  {
    var m, rest := FirstCut(Key(c), '@', c.m, AfterModule(c));
    var w := Overlap(c.m, c.version + [':'] + AfterVersion(c), m, rest, c.version, AfterVersion(c), '@', ':');
    var version, after := FirstCut(rest, ':', w, AfterVersion(c));
    var source := Overlap(w, AfterVersion(c), version, after, c.source, KindName(c.kind), ':', ':');
    d := Call(m, version, source, c.kind, c.now);
  }

  /** A string that has c somewhere, cut at its first one. */
  lemma {:induction false} FirstCut(s: string, c: char, x: string, y: string) returns (x': string, y': string)
    requires s == x + [c] + y
    ensures s == x' + [c] + y' && c !in x' && |x'| <= |x|
  {
    if c in x {
      var i :| 0 <= i < |x| && x[i] == c;
      assert x == x[..i] + [c] + x[i + 1..];
      assert s == x[..i] + [c] + (x[i + 1..] + [c] + y);
      x', y' := FirstCut(s, c, x[..i], x[i + 1..] + [c] + y);
    } else {
      x', y' := x, y;
    }
  }

  /** What is left after an earlier cut still ends like what was left after the later one. */
  lemma Overlap(x: string, y: string, x': string, y': string, u: string, v: string, c: char, e: char) returns (w: string)
    requires x + [c] + y == x' + [c] + y' && |x'| <= |x| && y == u + [e] + v
    ensures y' == w + [e] + v
  {
    var s := x + [c] + y;
    w := s[|x'| + 1..|x| + 1 + |u|];
    assert y' == s[|x'| + 1..];
    assert s[|x| + 1 + |u|..] == [e] + v;
  }

  /** One such pair: one tuple silences the other for five minutes. */
  lemma KeysCollide()
    ensures var a, b := Call("m", "1:x", "y", Local, 0), Call("m", "1", "x:y", Local, 7);
            a.source != b.source && LoggedAll(NO_LOG, [a, b]).fired == [a]
  {
    var a, b := Call("m", "1:x", "y", Local, 0), Call("m", "1", "x:y", Local, 7);
    assert |a.source| != |b.source|;
    assert Key(a) == "m@1:x:y:local" == Key(b);
    assert [a, b][..1] == [a] && [a][..0] == [];
    assert LoggedAll(NO_LOG, [a]) == Logged(NO_LOG, a);
    assert LoggedAll(NO_LOG, [a, b]) == Logged(Logged(NO_LOG, a), b);
  }

  // ----- Paths -----

  /** The first '/' of s, or |s|. */
  function IndexSlash(s: string): (i: nat)
    ensures i <= |s| && '/' !in s[..i] && (i < |s| ==> s[i] == '/')
  {
    if s == "" || s[0] == '/' then 0 else 1 + IndexSlash(s[1..])
  }

  const MODULES := "modules/"

  function ExtractModuleVersion(relPath: string): Option<(string, string)> {
    if !(MODULES <= relPath) then None
    else
      var rest := relPath[|MODULES|..];
      var i := IndexSlash(rest);
      if i == 0 || i == |rest| then None
      else
        var rest' := rest[i + 1..];
        var j := IndexSlash(rest');
        if j == 0 || j == |rest'| then None else Some((rest[..i], rest'[..j]))
  }

  predicate IsSegment(s: string) {
    s != "" && '/' !in s
  }

  /** A path has a module and a version exactly when it is modules/<m>/<v>/ and something. */
  lemma ExtractExact(relPath: string, m: string, v: string)
    ensures ExtractModuleVersion(relPath) == Some((m, v)) <==>
              m != "" && '/' !in m && v != "" && '/' !in v && exists tail :: relPath == ModulePath(m, v, tail)
    ensures forall tail :: ModulePath(m, v, tail) == "modules/" + m + "/" + v + "/" + tail
  {
    assert forall tail :: MODULES + (m + "/" + (v + "/" + tail)) == "modules/" + m + "/" + v + "/" + tail;
    if ExtractModuleVersion(relPath) == Some((m, v)) {
      var tail := ExtractedShape(relPath, m, v);
    }
    if IsSegment(m) && IsSegment(v) && exists tail :: relPath == ModulePath(m, v, tail) {
      var tail :| relPath == ModulePath(m, v, tail);
      PathExtracts(m, v, tail);
    }
  }

  lemma ExtractedShape(relPath: string, m: string, v: string) returns (tail: string)
    requires ExtractModuleVersion(relPath) == Some((m, v))
    ensures IsSegment(m) && IsSegment(v) && relPath == ModulePath(m, v, tail)
  {
    var rest := relPath[|MODULES|..];
    var rest' := rest[|m| + 1..];
    tail := rest'[|v| + 1..];
    SplitAt(rest, |m|);
    SplitAt(rest', |v|);
    assert relPath == MODULES + rest;
  }

  lemma SplitAt<T>(s: seq<T>, i: nat)
    requires i < |s|
    ensures s == s[..i] + [s[i]] + s[i + 1..]
  {
  }

  function ModulePath(m: string, v: string, tail: string): string {
    MODULES + (m + ['/'] + (v + ['/'] + tail))
  }

  lemma PathExtracts(m: string, v: string, tail: string)
    requires IsSegment(m) && IsSegment(v)
    ensures ExtractModuleVersion(ModulePath(m, v, tail)) == Some((m, v))
  {
    var rest' := v + ['/'] + tail;
    var rest := m + ['/'] + rest';
    SlashAfter(m, rest');
    SlashAfter(v, tail);
    assert ModulePath(m, v, tail)[|MODULES|..] == rest && MODULES <= ModulePath(m, v, tail);
    assert rest[..|m|] == m && rest[|m| + 1..] == rest' && rest'[..|v|] == v;
  }

  lemma {:induction false} SlashAfter(a: string, b: string)
    requires '/' !in a
    ensures IndexSlash(a + ['/'] + b) == |a|
  {
    if a == "" {
      assert (a + ['/'] + b)[0] == '/';
    } else {
      SlashAfter(a[1..], b);
      assert (a + ['/'] + b)[1..] == a[1..] + ['/'] + b;
    }
  }

  // ----- Upstream results -----

  /** upstreamResult, with the upstream by its position, and the time it is taken. */
  datatype Result = Result(up: nat, status: int, failed: bool, body: string, at: int)

  predicate Hit(r: Result) {
    !r.failed && r.status == 200
  }

  predicate Absent(r: Result) {
    !r.failed && r.status == 404
  }

  datatype Answer = Body(body: string) | NotFound | Unavailable(errors: nat) | PrimaryFailed

  /** The position of the first 200, or |rs|. */
  function FirstHit(rs: seq<Result>): (i: nat)
    ensures i <= |rs| && (i < |rs| ==> Hit(rs[i])) && forall j | 0 <= j < i :: !Hit(rs[j])
  {
    if rs == [] || Hit(rs[0]) then 0 else 1 + FirstHit(rs[1..])
  }

  function Count(rs: seq<Result>, p: Result -> bool): nat {
    if rs == [] then 0 else Count(rs[..|rs| - 1], p) + if p(rs[|rs| - 1]) then 1 else 0
  }

  function AnswerOf(rs: seq<Result>): Answer {
    if FirstHit(rs) < |rs| then Body(rs[FirstHit(rs)].body)
    else if Count(rs, Absent) > 0 then NotFound
    else Unavailable(|rs|)
  }

  // ----- The calls to the log -----

  function CallFor(r: Result, urls: seq<string>, mv: Option<(string, string)>, kind: Kind): seq<Call> {
    if mv.Some? && r.up < |urls| then [Call(mv.value.0, mv.value.1, urls[r.up], kind, r.at)] else []
  }

  /** One shadowed call for every 200. */
  function Shadows(rs: seq<Result>, urls: seq<string>, mv: Option<(string, string)>): seq<Call> {
    if rs == [] then []
    else
      var r := rs[|rs| - 1];
      Shadows(rs[..|rs| - 1], urls, mv) + if Hit(r) then CallFor(r, urls, mv, CollisionShadowed) else []
  }

  function CallsOf(rs: seq<Result>, urls: seq<string>, mv: Option<(string, string)>, shadowOff: bool): seq<Call> {
    var i := FirstHit(rs);
    if i == |rs| then []
    else CallFor(rs[i], urls, mv, HttpUpstream) + if shadowOff then [] else Shadows(rs[i + 1..], urls, mv)
  }

  // ----- The cascade -----

  datatype Primary = Served(body: string) | Missing | Broken

  class Cascade {
    const urls: seq<string>
    const shadowOff: bool
    const hooked: bool
    var last: map<string, int>
    var fired: seq<Call>

    constructor (urls: seq<string>, shadowOff: bool, hooked: bool)
      ensures Calls() == NO_LOG
      ensures this.urls == urls && this.shadowOff == shadowOff && this.hooked == hooked
    {
      this.urls, this.shadowOff, this.hooked := urls, shadowOff, hooked;
      last, fired := map[], [];
    }

    ghost function Calls(): Log
      reads this
    {
      Log(last, fired)
    }

    method LogCollision(c: Call)
      modifies this
      ensures Calls() == if hooked then Logged(old(Calls()), c) else old(Calls())
    {
      if !hooked {
        return;
      }
      var key := Key(c);
      if key in last && c.now - last[key] < WINDOW {
        return;
      }
      last := last[key := c.now];
      fired := fired + [c];
    }

    /** `rs` is what the results channel delivers, in order of arrival. `taken` counts what the
        tally and the drain took out of it together. */
    method ProbeUpstreams(relPath: string, rs: seq<Result>) returns (answer: Answer, taken: nat)
      requires |rs| == |urls| && forall r | r in rs :: r.up < |urls|
      modifies this
      ensures answer == AnswerOf(rs) && taken == |rs|
      ensures Calls() == if hooked then LoggedAll(old(Calls()), CallsOf(rs, urls, ExtractModuleVersion(relPath), shadowOff)) else old(Calls())
    {
      var n := |urls|;
      var mv := ExtractModuleVersion(relPath);
      var sawNotFound, sawError, consumed := 0, 0, 0;
      while consumed < n
        invariant consumed <= n && forall j | 0 <= j < consumed :: !Hit(rs[j])
        invariant sawNotFound == Count(rs[..consumed], Absent) && sawError == consumed - sawNotFound
        invariant Calls() == old(Calls())
      {
        var res := rs[consumed];
        assert rs[..consumed + 1][..consumed] == rs[..consumed];
        consumed := consumed + 1;
        if Hit(res) {
          assert FirstHit(rs) == consumed - 1;
          if mv.Some? {
            LogCollision(Call(mv.value.0, mv.value.1, urls[res.up], HttpUpstream, res.at));
          }
          ghost var call := CallFor(res, urls, mv, HttpUpstream);
          LogOne(old(Calls()), call);
          LoggedAppend(old(Calls()), call, if shadowOff then [] else Shadows(rs[consumed..], urls, mv));
          taken := consumed;
          if n - consumed > 0 && !shadowOff {
            DrainShadowed(rs[consumed..], mv);
            taken := n;
          } else if n - consumed > 0 {
            var silent := DrainSilent(rs[consumed..]);
            taken := consumed + silent;
          }
          return Body(res.body), taken;
        } else if Absent(res) {
          sawNotFound := sawNotFound + 1;
        } else {
          sawError := sawError + 1;
        }
      }
      assert rs[..n] == rs;
      taken := consumed;
      if sawNotFound > 0 {
        return NotFound, taken;
      }
      return Unavailable(sawError), taken;
    }

    method DrainSilent(rs: seq<Result>) returns (taken: nat)
      ensures taken == |rs|
    {
      taken := 0;
      while taken < |rs|
        invariant taken <= |rs|
      {
        taken := taken + 1;
      }
    }

    static lemma ShadowsStep(rs: seq<Result>, i: nat, urls: seq<string>, mv: Option<(string, string)>)
      requires i < |rs|
      ensures Shadows(rs[..i + 1], urls, mv) == Shadows(rs[..i], urls, mv) + if Hit(rs[i]) then CallFor(rs[i], urls, mv, CollisionShadowed) else []
    {
      assert rs[..i + 1][..i] == rs[..i];
    }

    method DrainShadowed(rs: seq<Result>, mv: Option<(string, string)>)
      requires forall r | r in rs :: r.up < |urls|
      modifies this
      ensures Calls() == if hooked then LoggedAll(old(Calls()), Shadows(rs, urls, mv)) else old(Calls())
    {
      for i := 0 to |rs|
        invariant Calls() == if hooked then LoggedAll(old(Calls()), Shadows(rs[..i], urls, mv)) else old(Calls())
      {
        ShadowsStep(rs, i, urls, mv);
        ghost var before := Shadows(rs[..i], urls, mv);
        var res := rs[i];
        if Hit(res) {
          ghost var call := CallFor(res, urls, mv, CollisionShadowed);
          LoggedAppend(old(Calls()), before, call);
          LogOne(LoggedAll(old(Calls()), before), call);
          if mv.Some? {
            LogCollision(Call(mv.value.0, mv.value.1, urls[res.up], CollisionShadowed, res.at));
          }
        } else {
          assert before + [] == before;
        }
      }
      assert rs[..|rs|] == rs;
    }

    method CascadeGet(primary: Primary, relPath: string, rs: seq<Result>, now: int) returns (answer: Answer)
      requires |rs| == |urls| && forall r | r in rs :: r.up < |urls|
      modifies this
      ensures answer == match primary
                        case Served(body) => Body(body)
                        case Broken => PrimaryFailed
                        case Missing => if urls == [] then NotFound else AnswerOf(rs)
      ensures var mv := ExtractModuleVersion(relPath);
              var calls := match primary
                           case Served(_) => if mv.Some? then [Call(mv.value.0, mv.value.1, "local", Local, now)] else []
                           case Broken => []
                           case Missing => CallsOf(rs, urls, mv, shadowOff);
              Calls() == if hooked then LoggedAll(old(Calls()), calls) else old(Calls())
    {
      match primary
      case Served(body) =>
        var mv := ExtractModuleVersion(relPath);
        if mv.Some? {
          ghost var call := Call(mv.value.0, mv.value.1, "local", Local, now);
          LogOne(old(Calls()), [call]);
          LogCollision(Call(mv.value.0, mv.value.1, "local", Local, now));
        }
        return Body(body);
      case Broken =>
        return PrimaryFailed;
      case Missing =>
        if |urls| == 0 {
          return NotFound;
        }
        var taken;
        answer, taken := ProbeUpstreams(relPath, rs);
    }
  }

  lemma LogOne(h: Log, call: seq<Call>)
    requires |call| <= 1
    ensures LoggedAll(h, call) == if call == [] then h else Logged(h, call[0])
  {
    if call != [] {
      assert call[..0] == [];
    }
  }

  // ----- Every arrival order -----

  /** Each upstream answers exactly once. */
  ghost predicate EachOnce(rs: seq<Result>, n: nat) {
    && |rs| == n
    && (forall r | r in rs :: r.up < n)
    && (forall i, j | 0 <= i < j < |rs| :: rs[i].up != rs[j].up)
  }

  /** What upstream u says when it is let finish. */
  datatype Reply = Reply(status: int, failed: bool, body: string)

  predicate Says(r: Result, replies: seq<Reply>) {
    r.up < |replies| && replies[r.up] == Reply(r.status, r.failed, r.body)
  }

  /** An arrival order of the replies.  With shadow detection off, what comes after the first 200 was
      cancelled and may be anything. */
  ghost predicate Arrives(rs: seq<Result>, replies: seq<Reply>, shadowOff: bool) {
    && EachOnce(rs, |replies|)
    && (forall i | 0 <= i < |rs| && (!shadowOff || i <= FirstHit(rs)) :: Says(rs[i], replies))
  }

  predicate Good(r: Reply) {
    !r.failed && r.status == 200
  }

  predicate Gone(r: Reply) {
    !r.failed && r.status == 404
  }

  lemma {:induction false} SetBelow(s: set<nat>, n: nat)
    requires forall x | x in s :: x < n
    ensures |s| <= n && (|s| == n ==> forall x: nat | x < n :: x in s)
  {
    if n > 0 {
      var s' := s - {n - 1};
      SetBelow(s', n - 1);
    } else {
      assert s == {};
    }
  }

  lemma {:induction false} DistinctUps(rs: seq<Result>)
    requires forall i, j | 0 <= i < j < |rs| :: rs[i].up != rs[j].up
    ensures |set r | r in rs :: r.up| == |rs|
  {
    if rs != [] {
      var n := |rs| - 1;
      DistinctUps(rs[..n]);
      var before := set r | r in rs[..n] :: r.up;
      assert (set r | r in rs :: r.up) == before + {rs[n].up} by {
        assert forall r :: r in rs <==> r in rs[..n] || r == rs[n];
      }
      assert rs[n].up !in before;
    }
  }

  /** Every upstream's result arrives. */
  lemma AllArrive(rs: seq<Result>, n: nat, u: nat)
    requires EachOnce(rs, n) && u < n
    ensures exists i :: 0 <= i < |rs| && rs[i].up == u
  {
    DistinctUps(rs);
    var ups := set r | r in rs :: r.up;
    SetBelow(ups, n);
    assert u in ups;
  }

  lemma {:induction false} CountSome(rs: seq<Result>, p: Result -> bool)
    ensures Count(rs, p) > 0 <==> exists i :: 0 <= i < |rs| && p(rs[i])
  {
    if rs != [] {
      var n := |rs| - 1;
      CountSome(rs[..n], p);
      if i :| 0 <= i < n && p(rs[i]) {
        assert rs[..n][i] == rs[i];
      }
    }
  }

  /** In every arrival order and both modes: a body if any upstream says 200, and it is that of an
      upstream that does; else "not found" if any says 404; else "unavailable", with every upstream
      counted as an error. */
  lemma AnswerExact(rs: seq<Result>, replies: seq<Reply>, shadowOff: bool)
    requires Arrives(rs, replies, shadowOff)
    ensures AnswerOf(rs).Body? <==> exists u :: 0 <= u < |replies| && !replies[u].failed && replies[u].status == 200
    ensures AnswerOf(rs).Body? ==>
              exists u :: 0 <= u < |replies| && !replies[u].failed && replies[u].status == 200 && AnswerOf(rs) == Body(replies[u].body)
    ensures AnswerOf(rs).NotFound? <==>
              && (forall u | 0 <= u < |replies| :: replies[u].failed || replies[u].status != 200)
              && (exists u :: 0 <= u < |replies| && !replies[u].failed && replies[u].status == 404)
    ensures AnswerOf(rs).Unavailable? <==>
              forall u | 0 <= u < |replies| :: replies[u].failed || (replies[u].status != 200 && replies[u].status != 404)
    ensures AnswerOf(rs).Unavailable? ==> AnswerOf(rs).errors == |replies|
  {
    var h := FirstHit(rs);
    CountSome(rs, Absent);
    if h < |rs| {
      assert Says(rs[h], replies) && rs[h] in rs;
    } else {
      forall u | 0 <= u < |replies|
        ensures exists i :: 0 <= i < |rs| && rs[i].up == u && Says(rs[i], replies)
        ensures !Good(replies[u])
      {
        AllArrive(rs, |replies|, u);
      }
      assert forall i | 0 <= i < |rs| :: Says(rs[i], replies);
    }
  }

  /** So the order decides at most which body is served. */
  lemma OrderFree(rs: seq<Result>, rs': seq<Result>, replies: seq<Reply>, shadowOff: bool, shadowOff': bool)
    requires Arrives(rs, replies, shadowOff) && Arrives(rs', replies, shadowOff')
    ensures AnswerOf(rs).Body? <==> AnswerOf(rs').Body?
    ensures !AnswerOf(rs).Body? ==> AnswerOf(rs) == AnswerOf(rs')
  {
    AnswerExact(rs, replies, shadowOff);
    AnswerExact(rs', replies, shadowOff');
  }

  function Hits(rs: seq<Result>): nat {
    Count(rs, Hit)
  }

  lemma {:induction false} ShadowsExact(rs: seq<Result>, urls: seq<string>, mv: Option<(string, string)>)
    requires mv.Some? && forall r | r in rs :: r.up < |urls|
    ensures |Shadows(rs, urls, mv)| == Hits(rs)
    ensures forall c | c in Shadows(rs, urls, mv) :: c.kind == CollisionShadowed && c.m == mv.value.0 && c.version == mv.value.1
    ensures forall i | 0 <= i < |rs| && Hit(rs[i]) :: CallFor(rs[i], urls, mv, CollisionShadowed)[0] in Shadows(rs, urls, mv)
  {
    if rs != [] {
      var n := |rs| - 1;
      ShadowsExact(rs[..n], urls, mv);
      forall i | 0 <= i < |rs| && Hit(rs[i])
        ensures CallFor(rs[i], urls, mv, CollisionShadowed)[0] in Shadows(rs, urls, mv)
      {
        if i < n {
          assert rs[..n][i] == rs[i];
        }
      }
    }
  }

  lemma {:induction false} CountSplit(a: seq<Result>, b: seq<Result>, p: Result -> bool)
    ensures Count(a + b, p) == Count(a, p) + Count(b, p)
  {
    if b == [] {
      assert a + b == a;
    } else {
      CountSplit(a, b[..|b| - 1], p);
      assert (a + b)[..|a + b| - 1] == a + b[..|b| - 1];
    }
  }

  /** With shadow detection on, a path with a module and a version makes one winner call and one
      shadowed call for each other 200; without any 200, and for any other path, none.  With it off
      only the winner is logged. */
  lemma CallsExact(rs: seq<Result>, urls: seq<string>, mv: Option<(string, string)>, shadowOff: bool)
    requires forall r | r in rs :: r.up < |urls|
    ensures var h, calls := FirstHit(rs), CallsOf(rs, urls, mv, shadowOff);
            && (mv.None? || Hits(rs) == 0 ==> calls == [])
            && (mv.Some? && Hits(rs) > 0 ==>
                  && |calls| == (if shadowOff then 1 else Hits(rs))
                  && h < |rs| && calls[0] == Call(mv.value.0, mv.value.1, urls[rs[h].up], HttpUpstream, rs[h].at)
                  && (forall k | 1 <= k < |calls| :: calls[k].kind == CollisionShadowed)
                  && (forall i | h < i < |rs| && !rs[i].failed && rs[i].status == 200 && !shadowOff ::
                        Call(mv.value.0, mv.value.1, urls[rs[i].up], CollisionShadowed, rs[i].at) in calls))
  {
    var h := FirstHit(rs);
    CountSome(rs, Hit);
    if h < |rs| {
      HitsFrom(rs);
      var shadows := Shadows(rs[h + 1..], urls, mv);
      if mv.None? {
        NoShadows(rs[h + 1..], urls, mv);
      } else {
        assert rs[h] in rs;
        var winner := Call(mv.value.0, mv.value.1, urls[rs[h].up], HttpUpstream, rs[h].at);
        assert CallFor(rs[h], urls, mv, HttpUpstream) == [winner];
        if !shadowOff {
          ShadowedRest(rs, h, urls, mv);
        }
        WinnerFirst(winner, if shadowOff then [] else shadows);
        assert CallsOf(rs, urls, mv, shadowOff) == [winner] + if shadowOff then [] else shadows;
      }
    }
  }

  lemma WinnerFirst(winner: Call, shadows: seq<Call>)
    ensures var calls := [winner] + shadows;
            && |calls| == 1 + |shadows| && calls[0] == winner
            && (forall k | 1 <= k < |calls| :: calls[k] == shadows[k - 1])
            && (forall c | c in shadows :: c in calls)
  {
  }

  /** What is logged of the results after position h. */
  lemma ShadowedRest(rs: seq<Result>, h: nat, urls: seq<string>, mv: Option<(string, string)>)
    requires h < |rs| && mv.Some? && forall r | r in rs :: r.up < |urls|
    ensures var shadows := Shadows(rs[h + 1..], urls, mv);
            && |shadows| == Hits(rs[h + 1..])
            && (forall k | 0 <= k < |shadows| :: shadows[k].kind == CollisionShadowed)
            && (forall i | h < i < |rs| && Hit(rs[i]) :: CallFor(rs[i], urls, mv, CollisionShadowed)[0] in shadows)
  {
    var rest := rs[h + 1..];
    assert forall r | r in rest :: r in rs;
    ShadowsExact(rest, urls, mv);
    forall i | h < i < |rs| && Hit(rs[i])
      ensures CallFor(rs[i], urls, mv, CollisionShadowed)[0] in Shadows(rest, urls, mv)
    {
      assert rest[i - h - 1] == rs[i];
    }
  }

  /** The first 200 and those after it are all there are. */
  lemma HitsFrom(rs: seq<Result>)
    requires FirstHit(rs) < |rs|
    ensures Hits(rs) == 1 + Hits(rs[FirstHit(rs) + 1..])
  {
    var h := FirstHit(rs);
    NoHits(rs, h);
    SplitAt(rs, h);
    HitsAround(rs[..h], rs[h], rs[h + 1..]);
  }

  lemma NoHits(rs: seq<Result>, h: nat)
    requires h <= |rs| && forall j | 0 <= j < h :: !Hit(rs[j])
    ensures Hits(rs[..h]) == 0
  {
    CountSome(rs[..h], Hit);
  }

  lemma HitsAround(a: seq<Result>, r: Result, b: seq<Result>)
    requires Hit(r) && Hits(a) == 0
    ensures Hits(a + [r] + b) == 1 + Hits(b)
  {
    CountSplit(a + [r], b, Hit);
    assert (a + [r])[..|a|] == a;
  }

  lemma {:induction false} NoShadows(rs: seq<Result>, urls: seq<string>, mv: Option<(string, string)>)
    requires mv.None?
    ensures Shadows(rs, urls, mv) == []
  {
    if rs != [] {
      NoShadows(rs[..|rs| - 1], urls, mv);
    }
  }
}
