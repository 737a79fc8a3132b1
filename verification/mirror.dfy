/** The metadata.json merge of internal/mirror/mirror.go, and callers of one Writer racing on it. */
module Mirror {
  import opened Ordering
  import opened Wrappers

  // ----- One merge -----

  /** The keys of a metadata.json: the four the merge lifts from upstream, the version list,
      and any other key, which the merge does not know. */
  datatype Key = Homepage | Maintainers | Repository | YankedVersions | Versions | Unknown(name: string)

  const LIFTED := [Homepage, Maintainers, Repository, YankedVersions]

  /** A JSON value as the merge can tell it apart: a list of strings, null, or raw text. */
  datatype Value = Strings(items: seq<string>) | Null | Raw(text: string)

  type Fields = map<Key, Value>

  /** What reading <root>/modules/<name>/metadata.json gives. */
  datatype File = Absent | Unreadable | Malformed | Doc(fields: Fields)

  /** The upstream bytes: none, unparseable, or an object. */
  datatype Upstream = NoUpstream | BadUpstream | UpstreamDoc(fields: Fields)

  function Existing(f: File): Option<Fields> {
    match f
    case Absent => Some(map[])
    case Doc(fields) => Some(fields)
    case _ => None
  }

  function Lifted(m: Fields, up: Fields, keys: seq<Key>): Fields {
    if keys == [] then m
    else
      var m' := Lifted(m, up, keys[..|keys| - 1]);
      var k := keys[|keys| - 1];
      if k in up then m'[k := up[k]] else m'
  }

  function WithUpstream(m: Fields, up: Upstream): Option<Fields> {
    match up
    case NoUpstream => Some(m)
    case BadUpstream => None
    case UpstreamDoc(fields) => Some(Lifted(m, fields, LIFTED))
  }

  /** json.Unmarshal into []string: an absent or null list is empty. */
  function VersionList(m: Fields): Option<seq<string>> {
    if Versions !in m || m[Versions].Null? then Some([])
    else if m[Versions].Strings? then Some(m[Versions].items)
    else None
  }

  function WithVersion(vs: seq<string>, v: string): seq<string> {
    if v in vs then vs else Sort(vs + [v])
  }

  /** The document a merge writes, or None when it fails and writes nothing. */
  function Merged(f: File, v: string, up: Upstream): Option<Fields> {
    match Existing(f)
    case None => None
    case Some(m) =>
      match WithUpstream(m, up)
      case None => None
      case Some(lifted) =>
        match VersionList(lifted)
        case None => None
        case Some(vs) => Some(lifted[Versions := Strings(WithVersion(vs, v))])
  }

  type Tree = map<string, File>

  function At(files: Tree, name: string): File {
    if name in files then files[name] else Absent
  }

  class Writer {
    var files: Tree

    /** MergeMetadataWithUpstream, between taking and releasing the module's lock. */
    method MergeMetadata(name: string, v: string, up: Upstream) returns (ok: bool)
      modifies this
      ensures ok <==> Merged(At(old(files), name), v, up).Some?
      ensures files == if ok then old(files)[name := Doc(Merged(At(old(files), name), v, up).value)] else old(files)
    {
      var m: Fields := map[];
      if name in files {
        match files[name]
        case Absent =>
        case Doc(fields) => m := fields;
        case _ => return false;
      }
      match up {
        case NoUpstream =>
        case BadUpstream => return false;
        case UpstreamDoc(fields) =>
          ghost var m0 := m;
          for i := 0 to |LIFTED|
            invariant m == Lifted(m0, fields, LIFTED[..i])
          {
            assert LIFTED[..i + 1][..i] == LIFTED[..i];
            if LIFTED[i] in fields {
              m := m[LIFTED[i] := fields[LIFTED[i]]];
            }
          }
          assert LIFTED[..|LIFTED|] == LIFTED;
      }
      var vs: seq<string> := [];
      if Versions in m {
        match m[Versions]
        case Strings(items) => vs := items;
        case Null =>
        case Raw(_) => return false;
      }
      if v !in vs {
        vs := Sort(vs + [v]);
      }
      files := files[name := Doc(m[Versions := Strings(vs)])];
      return true;
    }
  }

  lemma {:induction false} LiftedAt(m: Fields, up: Fields, keys: seq<Key>, k: Key)
    ensures var r := Lifted(m, up, keys);
            && (k in keys && k in up ==> k in r && r[k] == up[k])
            && (!(k in keys && k in up) ==> (k in r <==> k in m) && (k in r ==> r[k] == m[k]))
  {
    if keys != [] {
      LiftedAt(m, up, keys[..|keys| - 1], k);
      assert k in keys <==> k in keys[..|keys| - 1] || k == keys[|keys| - 1];
    }
  }

  predicate IsLifted(k: Key, up: Upstream) {
    up.UpstreamDoc? && k in up.fields && k in LIFTED
  }

  /** A merge adds its version to the version set and nothing else, lets upstream win on the
      lifted keys it has, and keeps every other key, known or unknown, as it was. */
  lemma MergeEffect(f: File, v: string, up: Upstream, k: Key)
    requires Merged(f, v, up).Some?
    ensures var old_, new_ := Existing(f).value, Merged(f, v, up).value;
            && VersionList(old_).Some? && VersionList(new_).Some?
            && (forall w :: w in VersionList(new_).value <==> w in VersionList(old_).value || w == v)
            && (IsLifted(k, up) ==> k in new_ && new_[k] == up.fields[k])
            && (!IsLifted(k, up) && k != Versions ==> (k in new_ <==> k in old_) && (k in new_ ==> new_[k] == old_[k]))
  {
    var m := Existing(f).value;
    if up.UpstreamDoc? {
      LiftedAt(m, up.fields, LIFTED, k);
      LiftedAt(m, up.fields, LIFTED, Versions);
    }
    var vs := VersionList(m).value;
    forall w
      ensures w in WithVersion(vs, v) <==> w in vs || w == v
    {
      SortElements(vs + [v], w);
    }
  }

  /** So upstream's other keys do not survive: whatever they are, the merge is the same. */
  lemma UnknownDropped(f: File, v: string, a: Fields, b: Fields)
    requires forall k | k in LIFTED :: (k in a <==> k in b) && (k in a ==> a[k] == b[k])
    ensures Merged(f, v, UpstreamDoc(a)) == Merged(f, v, UpstreamDoc(b))
  {
    if Existing(f).Some? {
      SameLifted(Existing(f).value, a, b, LIFTED);
    }
  }

  lemma {:induction false} SameLifted(m: Fields, a: Fields, b: Fields, keys: seq<Key>)
    requires forall k | k in keys :: (k in a <==> k in b) && (k in a ==> a[k] == b[k])
    ensures Lifted(m, a, keys) == Lifted(m, b, keys)
  {
    if keys != [] {
      SameLifted(m, a, b, keys[..|keys| - 1]);
      assert keys[|keys| - 1] in keys;
    }
  }

  /** Key by key.  The homepage, the maintainers, the repository and the yanked versions are upstream's
      where it has them; the version is added in order, unless it is listed; all else is as it was. */
  lemma MergeByKey(f: File, v: string, up: Upstream)
    requires Merged(f, v, up).Some?
    ensures f == Absent || f.Doc?
    ensures var old_, new_ := (if f.Doc? then f.fields else map[]), Merged(f, v, up).value;
            var was := if Versions in old_ && old_[Versions].Strings? then old_[Versions].items else [];
            && (forall k | k == Homepage || k == Maintainers || k == Repository || k == YankedVersions ::
                  if up.UpstreamDoc? && k in up.fields then k in new_ && new_[k] == up.fields[k]
                  else (k in new_ <==> k in old_) && (k in new_ ==> new_[k] == old_[k]))
            && (forall name :: (Unknown(name) in new_ <==> Unknown(name) in old_)
                               && (Unknown(name) in new_ ==> new_[Unknown(name)] == old_[Unknown(name)]))
            && Versions in new_ && new_[Versions].Strings?
            && (v in was ==> new_[Versions].items == was)
            && (v !in was ==> Sorted(new_[Versions].items) && multiset(new_[Versions].items) == multiset(was) + multiset{v})
  {
    var old_ := Existing(f).value;
    forall k
      ensures k != Versions && !(up.UpstreamDoc? && k in up.fields && k in LIFTED) ==>
                (k in Merged(f, v, up).value <==> k in old_) && (k in Merged(f, v, up).value ==> Merged(f, v, up).value[k] == old_[k])
      ensures up.UpstreamDoc? && k in up.fields && k in LIFTED ==>
                k in Merged(f, v, up).value && Merged(f, v, up).value[k] == up.fields[k]
    {
      MergeEffect(f, v, up, k);
    }
    MergedVersions(f, v, up);
    var vs := VersionList(old_).value;
    SortSorted(vs + [v]);
    SortPermutes(vs + [v]);
  }

  /** A merge fails exactly on a file or upstream it cannot read, or a version list that is none. */
  lemma MergeFails(f: File, v: string, up: Upstream)
    ensures Merged(f, v, up).None? <==>
              || f == Unreadable || f == Malformed || up == BadUpstream
              || (f.Doc? && Versions in f.fields && f.fields[Versions].Raw?)
  {
    if Existing(f).Some? && up.UpstreamDoc? {
      LiftedAt(Existing(f).value, up.fields, LIFTED, Versions);
    }
  }

  lemma MergedVersions(f: File, v: string, up: Upstream)
    requires Merged(f, v, up).Some?
    ensures VersionList(Existing(f).value).Some?
    ensures Merged(f, v, up).value[Versions] == Strings(WithVersion(VersionList(Existing(f).value).value, v))
  {
    if up.UpstreamDoc? {
      LiftedAt(Existing(f).value, up.fields, LIFTED, Versions);
    }
  }

  /** Merging the same version and upstream again writes the same document. */
  lemma MergeIdempotent(f: File, v: string, up: Upstream)
    requires Merged(f, v, up).Some?
    ensures Merged(Doc(Merged(f, v, up).value), v, up) == Merged(f, v, up)
  {
    var d := Merged(f, v, up).value;
    assert IsTwice(f, v, up, Versions) by { TwiceAt(f, v, up, Versions); }
    var d' := Merged(Doc(d), v, up).value;
    forall k
      ensures (k in d' <==> k in d) && (k in d ==> d'[k] == d[k])
    {
      TwiceAt(f, v, up, k);
    }
    assert d' == d;
  }

  predicate IsTwice(f: File, v: string, up: Upstream, k: Key)
    requires Merged(f, v, up).Some?
  {
    var d := Merged(f, v, up).value;
    var again := Merged(Doc(d), v, up);
    again.Some? && (k in again.value <==> k in d) && (k in d ==> again.value[k] == d[k])
  }

  lemma TwiceAt(f: File, v: string, up: Upstream, k: Key)
    requires Merged(f, v, up).Some?
    ensures IsTwice(f, v, up, k)
  {
    var d := Merged(f, v, up).value;
    MergeEffect(f, v, up, k);
    if up.UpstreamDoc? {
      LiftedAt(d, up.fields, LIFTED, Versions);
    }
    MergeEffect(Doc(d), v, up, k);
    MergedVersions(Doc(d), v, up);
    SortElements(VersionList(Existing(f).value).value + [v], v);
  }

  /** The version is listed already, and the lifted keys are upstream's. */
  predicate AlreadyMerged(f: File, v: string, up: Upstream) {
    && f.Doc? && VersionList(f.fields).Some? && v in VersionList(f.fields).value
    && forall k | k in LIFTED && IsLifted(k, up) :: k in f.fields && f.fields[k] == up.fields[k]
  }

  /** A merge writes what is there exactly when that holds, in whatever order the list is. */
  lemma NothingToMergeExact(f: File, v: string, up: Upstream)
    requires Merged(f, v, up).Some?
    ensures f == Doc(Merged(f, v, up).value) <==> AlreadyMerged(f, v, up)
  {
    var d := Merged(f, v, up).value;
    MergeEffect(f, v, up, Versions);
    MergedVersions(f, v, up);
    if f == Doc(d) {
      forall k | k in LIFTED && IsLifted(k, up)
        ensures k in f.fields && f.fields[k] == up.fields[k]
      {
        MergeEffect(f, v, up, k);
      }
    }
    if AlreadyMerged(f, v, up) {
      forall k
        ensures (k in d <==> k in f.fields) && (k in d ==> d[k] == f.fields[k])
      {
        MergeEffect(f, v, up, k);
      }
      assert d == f.fields;
    }
  }

  // ----- Many merges of one file -----

  function AllVersions(vs: seq<string>, more: seq<string>): seq<string> {
    if more == [] then vs else WithVersion(AllVersions(vs, more[..|more| - 1]), more[|more| - 1])
  }

  /** The list after any series of merges: untouched if they brought nothing new, and otherwise
      the sorted list of the old entries and the new versions. */
  lemma {:induction false} AllVersionsExact(vs: seq<string>, more: seq<string>, y: string)
    ensures var r := AllVersions(vs, more);
            && (y in r <==> y in vs || y in more)
            && multiset(r)[y] == multiset(vs)[y] + (if y in more && y !in vs then 1 else 0)
            && (r == vs || Sorted(r))
            && (r == vs <==> forall v | v in more :: v in vs)
  {
    if more != [] {
      var n := |more| - 1;
      var r0, v := AllVersions(vs, more[..n]), more[n];
      AllVersionsExact(vs, more[..n], y);
      AllVersionsExact(vs, more[..n], v);
      assert forall w :: w in more <==> w in more[..n] || w == v;
      assert y in multiset(r0) <==> y in r0;
      SortCounts(r0 + [v], y);
      SortElements(r0 + [v], y);
      SortSorted(r0 + [v]);
      Longer(vs, more);
    }
  }

  lemma {:induction false} Longer(vs: seq<string>, more: seq<string>)
    ensures |AllVersions(vs, more)| >= |vs|
    ensures |AllVersions(vs, more)| == |vs| ==> AllVersions(vs, more) == vs && forall v | v in more :: v in vs
  {
    if more != [] {
      var n := |more| - 1;
      var r0, v := AllVersions(vs, more[..n]), more[n];
      Longer(vs, more[..n]);
      SortPermutes(r0 + [v]);
      assert |multiset(Sort(r0 + [v]))| == |Sort(r0 + [v])| && |multiset(r0 + [v])| == |r0 + [v]|;
      assert forall w :: w in more <==> w in more[..n] || w == v;
    }
  }

  /** So the order of the merges does not matter, nor how often each version is merged. */
  lemma AllVersionsOrderFree(vs: seq<string>, a: seq<string>, b: seq<string>)
    requires forall v :: v in a <==> v in b
    ensures AllVersions(vs, a) == AllVersions(vs, b)
  {
    var r, t := AllVersions(vs, a), AllVersions(vs, b);
    forall y
      ensures multiset(r)[y] == multiset(t)[y]
      ensures r == vs || Sorted(r)
      ensures t == vs || Sorted(t)
      ensures r == vs <==> t == vs
    {
      AllVersionsExact(vs, a, y);
      AllVersionsExact(vs, b, y);
    }
    if r != vs {
      SortedUnique(r, t);
    }
  }

  /** The lifted keys are different: the last upstream wins, so two merges give one document in
      both orders exactly when their upstreams agree on the lifted keys they share. */
  predicate Agree(u: Upstream, w: Upstream) {
    forall k | k in LIFTED && IsLifted(k, u) && IsLifted(k, w) :: u.fields[k] == w.fields[k]
  }

  function Then(f: File, v: string, up: Upstream): File {
    match Merged(f, v, up)
    case None => f
    case Some(d) => Doc(d)
  }

  lemma MergeCommutes(f: File, v1: string, u1: Upstream, v2: string, u2: Upstream)
    requires Merged(f, v1, u1).Some? && Merged(f, v2, u2).Some?
    ensures Then(Then(f, v1, u1), v2, u2) == Then(Then(f, v2, u2), v1, u1) <==> Agree(u1, u2)
  {
    var a, b := Then(Then(f, v1, u1), v2, u2), Then(Then(f, v2, u2), v1, u1);
    SecondMerge(f, v1, u1, v2, u2);
    SecondMerge(f, v2, u2, v1, u1);
    if Agree(u1, u2) {
      forall k
        ensures (k in a.fields <==> k in b.fields) && (k in a.fields ==> a.fields[k] == b.fields[k])
      {
        BothOrdersAt(f, v1, u1, v2, u2, k);
      }
      assert a.fields == b.fields;
    } else {
      var k :| k in LIFTED && IsLifted(k, u1) && IsLifted(k, u2) && u1.fields[k] != u2.fields[k];
      BothOrdersAt(f, v1, u1, v2, u2, k);
      assert a.fields[k] != b.fields[k];
    }
  }

  lemma SecondMerge(f: File, v1: string, u1: Upstream, v2: string, u2: Upstream)
    requires Merged(f, v1, u1).Some? && Merged(f, v2, u2).Some?
    ensures Merged(Then(f, v1, u1), v2, u2).Some?
  {
    var d := Merged(f, v1, u1).value;
    MergedVersions(f, v1, u1);
    assert u2.BadUpstream? ==> Merged(f, v2, u2).None?;
    if u2.UpstreamDoc? {
      LiftedAt(d, u2.fields, LIFTED, Versions);
    }
    assert WithUpstream(d, u2).Some?;
    assert VersionList(WithUpstream(d, u2).value).Some?;
  }

  /** A key other than the version list, after two merges. */
  lemma TwoMergesAt(f: File, v1: string, u1: Upstream, v2: string, u2: Upstream, k: Key)
    requires Merged(f, v1, u1).Some? && Merged(Then(f, v1, u1), v2, u2).Some? && k != Versions
    ensures var m, r := Existing(f).value, Then(Then(f, v1, u1), v2, u2).fields;
            if IsLifted(k, u2) then k in r && r[k] == u2.fields[k]
            else if IsLifted(k, u1) then k in r && r[k] == u1.fields[k]
            else (k in r <==> k in m) && (k in r ==> r[k] == m[k])
  {
    MergeEffect(f, v1, u1, k);
    MergeEffect(Then(f, v1, u1), v2, u2, k);
  }

  lemma BothOrdersAt(f: File, v1: string, u1: Upstream, v2: string, u2: Upstream, k: Key)
    requires Merged(f, v1, u1).Some? && Merged(f, v2, u2).Some?
    requires Merged(Then(f, v1, u1), v2, u2).Some? && Merged(Then(f, v2, u2), v1, u1).Some?
    ensures var a, b := Then(Then(f, v1, u1), v2, u2).fields, Then(Then(f, v2, u2), v1, u1).fields;
            if IsLifted(k, u1) && IsLifted(k, u2) then k in a && k in b && a[k] == u2.fields[k] && b[k] == u1.fields[k]
            else (k in a <==> k in b) && (k in a ==> a[k] == b[k])
  {
    if k == Versions {
      var vs := VersionList(Existing(f).value);
      MergedVersions(f, v1, u1);
      MergedVersions(f, v2, u2);
      MergedVersions(Then(f, v1, u1), v2, u2);
      MergedVersions(Then(f, v2, u2), v1, u1);
      PairVersions(vs.value, v1, v2);
      PairVersions(vs.value, v2, v1);
      AllVersionsOrderFree(vs.value, [v1, v2], [v2, v1]);
    } else {
      TwoMergesAt(f, v1, u1, v2, u2, k);
      TwoMergesAt(f, v2, u2, v1, u1, k);
    }
  }

  lemma PairVersions(vs: seq<string>, v: string, w: string)
    ensures AllVersions(vs, [v, w]) == WithVersion(WithVersion(vs, v), w)
  {
    assert [v, w][..1] == [v] && [v][..0] == [];
    assert AllVersions(vs, [v]) == WithVersion(AllVersions(vs, []), v);
  }

  // ----- Callers sharing one Writer -----

  datatype Request = Request(name: string, version: string, up: Upstream)

  /** Where a caller is: before the lock, inside it before and after the read, after the rename
      (or the failure), and past the unlock. */
  datatype Pc = Calling | Holding | HaveRead(file: File) | Leaving(ok: bool) | Returned(ok: bool)

  /** `locks` is the Writer's lock table with each mutex's holder; `log` the callers whose
      rename took effect, in order. */
  datatype Race = Race(files: Tree, locks: map<string, Option<nat>>, pcs: seq<Pc>, log: seq<nat>)

  datatype Step = Lock(i: nat) | Read(i: nat) | Rename(i: nat, diskOk: bool) | Unlock(i: nat)

  predicate Enabled(s: Race, reqs: seq<Request>, step: Step) {
    && |s.pcs| == |reqs|
    && step.i < |reqs|
    && match step
       case Lock(i) => s.pcs[i].Calling? && (reqs[i].name in s.locks ==> s.locks[reqs[i].name].None?)
       case Read(i) => s.pcs[i].Holding?
       case Rename(i, _) => s.pcs[i].HaveRead?
       case Unlock(i) => s.pcs[i].Leaving?
  }

  function After(s: Race, reqs: seq<Request>, step: Step): Race
    requires Enabled(s, reqs, step)
  {
    var i := step.i;
    var r := reqs[i];
    match step
    case Lock(_) => s.(locks := s.locks[r.name := Some(i)], pcs := s.pcs[i := Holding])
    case Read(_) => s.(pcs := s.pcs[i := HaveRead(At(s.files, r.name))])
    case Rename(_, diskOk) =>
      var d := Merged(s.pcs[i].file, r.version, r.up);
      if diskOk && d.Some? then
        s.(files := s.files[r.name := Doc(d.value)], pcs := s.pcs[i := Leaving(true)], log := s.log + [i])
      else s.(pcs := s.pcs[i := Leaving(false)])
    case Unlock(_) => s.(locks := s.locks[r.name := None], pcs := s.pcs[i := Returned(s.pcs[i].ok)])
  }

  /** The four steps of a caller: the lock is taken when nobody has it; the file is read; the merge of
      what was read replaces the file, unless it or the write fails; the lock is given back. */
  lemma RaceExact(s: Race, reqs: seq<Request>, i: nat, diskOk: bool)
    requires i < |reqs| && |s.pcs| == |reqs|
    ensures Enabled(s, reqs, Lock(i)) <==> s.pcs[i] == Calling && !(reqs[i].name in s.locks && s.locks[reqs[i].name].Some?)
    ensures Enabled(s, reqs, Lock(i)) ==>
              var t := After(s, reqs, Lock(i));
              t == s.(locks := t.locks, pcs := s.pcs[i := Holding]) && t.locks == s.locks[reqs[i].name := Some(i)]
    ensures Enabled(s, reqs, Read(i)) ==>
              After(s, reqs, Read(i)) == s.(pcs := s.pcs[i := HaveRead(if reqs[i].name in s.files then s.files[reqs[i].name] else Absent)])
    ensures Enabled(s, reqs, Rename(i, diskOk)) ==>
              var t, d := After(s, reqs, Rename(i, diskOk)), Merged(s.pcs[i].file, reqs[i].version, reqs[i].up);
              if diskOk && d.Some? then
                t == s.(files := s.files[reqs[i].name := Doc(d.value)], pcs := s.pcs[i := Leaving(true)], log := s.log + [i])
              else t == s.(pcs := s.pcs[i := Leaving(false)])
    ensures Enabled(s, reqs, Unlock(i)) ==>
              var t := After(s, reqs, Unlock(i));
              t == s.(locks := s.locks[reqs[i].name := None], pcs := s.pcs[i := Returned(s.pcs[i].ok)])
  {
  }

  /** A lock is held by a caller that is between taking it and giving it back. */
  ghost predicate LocksHeld(s: Race, reqs: seq<Request>) {
    && |s.pcs| == |reqs|
    && forall name | name in s.locks && s.locks[name].Some? ::
         var j := s.locks[name].value; j < |reqs| && reqs[j].name == name && InLock(s.pcs[j])
  }

  lemma StepKeepsLocks(s: Race, reqs: seq<Request>, step: Step)
    requires LocksHeld(s, reqs) && Enabled(s, reqs, step)
    ensures LocksHeld(After(s, reqs, step), reqs)
  {
  }

  function StepsLeft(pc: Pc): nat {
    match pc
    case Calling => 4
    case Holding => 3
    case HaveRead(_) => 2
    case Leaving(_) => 1
    case Returned(_) => 0
  }

  function AllStepsLeft(pcs: seq<Pc>): nat {
    if pcs == [] then 0 else AllStepsLeft(pcs[..|pcs| - 1]) + StepsLeft(pcs[|pcs| - 1])
  }

  lemma {:induction false} StepsLeftUpdate(pcs: seq<Pc>, i: nat, pc: Pc)
    requires i < |pcs|
    ensures AllStepsLeft(pcs[i := pc]) == AllStepsLeft(pcs) - StepsLeft(pcs[i]) + StepsLeft(pc)
  {
    var n := |pcs| - 1;
    if i == n {
      assert pcs[i := pc][..n] == pcs[..n];
    } else {
      StepsLeftUpdate(pcs[..n], i, pc);
      assert pcs[i := pc][..n] == pcs[..n][i := pc];
    }
  }

  /** Every step brings its caller one further, so a run has at most four steps for each. */
  lemma StepAdvances(s: Race, reqs: seq<Request>, step: Step)
    requires Enabled(s, reqs, step)
    ensures AllStepsLeft(After(s, reqs, step).pcs) == AllStepsLeft(s.pcs) - 1
  {
    StepsLeftUpdate(s.pcs, step.i, After(s, reqs, step).pcs[step.i]);
  }

  /** And as long as some caller has not returned, one of them can move. */
  lemma NoDeadlock(s: Race, reqs: seq<Request>, i: nat)
    requires LocksHeld(s, reqs) && i < |reqs| && !s.pcs[i].Returned?
    ensures exists step :: Enabled(s, reqs, step)
  {
    if j :| 0 <= j < |reqs| && InLock(s.pcs[j]) {
      var step := if s.pcs[j].Holding? then Read(j) else if s.pcs[j].HaveRead? then Rename(j, true) else Unlock(j);
      assert Enabled(s, reqs, step);
    } else {
      assert Enabled(s, reqs, Lock(i));
    }
  }

  ghost predicate Run(s: Race, reqs: seq<Request>, steps: seq<Step>)
    decreases |steps|
  {
    steps == [] || (Enabled(s, reqs, steps[0]) && Run(After(s, reqs, steps[0]), reqs, steps[1..]))
  }

  ghost function Execute(s: Race, reqs: seq<Request>, steps: seq<Step>): Race
    requires Run(s, reqs, steps)
    decreases |steps|
  {
    if steps == [] then s else Execute(After(s, reqs, steps[0]), reqs, steps[1..])
  }

  function Start(files: Tree, n: nat): Race {
    Race(files, map[], seq(n, _ => Calling), [])
  }

  /** The versions merged into module `name` by the callers in `log`. */
  function Brought(reqs: seq<Request>, log: seq<nat>, name: string): seq<string> {
    if log == [] then []
    else
      var rest, i := Brought(reqs, log[..|log| - 1], name), log[|log| - 1];
      if i < |reqs| && reqs[i].name == name then rest + [reqs[i].version] else rest
  }

  predicate InLock(pc: Pc) {
    pc.Holding? || pc.HaveRead? || pc.Leaving?
  }

  predicate Took(pc: Pc) {
    (pc.Leaving? || pc.Returned?) && pc.ok
  }

  /** Each module's list is the starting list with what the log brought, as if its callers had
      run one after the other. */
  ghost predicate Serial(files0: Tree, files: Tree, reqs: seq<Request>, log: seq<nat>, name: string) {
    if Brought(reqs, log, name) == [] then At(files, name) == At(files0, name)
    else
      && Existing(At(files0, name)).Some? && VersionList(Existing(At(files0, name)).value).Some?
      && At(files, name).Doc?
      && VersionList(At(files, name).fields) ==
         Some(AllVersions(VersionList(Existing(At(files0, name)).value).value, Brought(reqs, log, name)))
  }

  ghost predicate Inv(s: Race, reqs: seq<Request>, files0: Tree) {
    && |s.pcs| == |reqs|
    && (forall i | 0 <= i < |reqs| && InLock(s.pcs[i]) :: reqs[i].name in s.locks && s.locks[reqs[i].name] == Some(i))
    && (forall i | 0 <= i < |reqs| && s.pcs[i].HaveRead? :: s.pcs[i].file == At(s.files, reqs[i].name))
    && (forall i :: i in s.log <==> 0 <= i < |reqs| && Took(s.pcs[i]))
    && (forall name :: Serial(files0, s.files, reqs, s.log, name))
  }

  /** So in every run all callers return sooner or later. */
  lemma {:induction false} RaceEnds(s: Race, reqs: seq<Request>, steps: seq<Step>)
    requires LocksHeld(s, reqs) && Run(s, reqs, steps)
    ensures var t := Execute(s, reqs, steps);
            && |steps| + AllStepsLeft(t.pcs) == AllStepsLeft(s.pcs)
            && ((exists i :: 0 <= i < |t.pcs| && !t.pcs[i].Returned?) ==> exists step :: Enabled(t, reqs, step))
    decreases |steps|
  {
    if steps == [] {
      if i :| 0 <= i < |s.pcs| && !s.pcs[i].Returned? {
        NoDeadlock(s, reqs, i);
      }
    } else {
      StepKeepsLocks(s, reqs, steps[0]);
      StepAdvances(s, reqs, steps[0]);
      RaceEnds(After(s, reqs, steps[0]), reqs, steps[1..]);
    }
  }

  lemma StartLocks(files0: Tree, reqs: seq<Request>)
    ensures LocksHeld(Start(files0, |reqs|), reqs)
  {
  }

  lemma StartInv(files0: Tree, reqs: seq<Request>)
    ensures Inv(Start(files0, |reqs|), reqs, files0)
  {
  }

  lemma RenameSerial(s: Race, reqs: seq<Request>, i: nat, files0: Tree, name: string)
    requires Serial(files0, s.files, reqs, s.log, name) && i < |reqs|
    requires Merged(At(s.files, reqs[i].name), reqs[i].version, reqs[i].up).Some?
    ensures Serial(files0, s.files[reqs[i].name := Doc(Merged(At(s.files, reqs[i].name), reqs[i].version, reqs[i].up).value)],
                   reqs, s.log + [i], name)
  {
    var r := reqs[i];
    assert (s.log + [i])[..|s.log|] == s.log;
    if name == r.name {
      var b := Brought(reqs, s.log, name);
      MergedVersions(At(s.files, name), r.version, r.up);
      assert (b + [r.version])[..|b|] == b;
    }
  }

  lemma StepKeeps(s: Race, reqs: seq<Request>, step: Step, files0: Tree)
    requires Inv(s, reqs, files0) && Enabled(s, reqs, step)
    ensures Inv(After(s, reqs, step), reqs, files0)
  {
    var s', i := After(s, reqs, step), step.i;
    if s'.log != s.log {
      forall name
        ensures Serial(files0, s'.files, reqs, s'.log, name)
      {
        RenameSerial(s, reqs, i, files0, name);
      }
    }
    assert forall j | 0 <= j < |reqs| && j != i :: s'.pcs[j] == s.pcs[j];
  }

  lemma {:induction false} RunKeeps(s: Race, reqs: seq<Request>, steps: seq<Step>, files0: Tree)
    requires Inv(s, reqs, files0) && Run(s, reqs, steps)
    ensures Inv(Execute(s, reqs, steps), reqs, files0)
    decreases |steps|
  {
    if steps != [] {
      StepKeeps(s, reqs, steps[0], files0);
      RunKeeps(After(s, reqs, steps[0]), reqs, steps[1..], files0);
    }
  }

  lemma {:induction false} BroughtExact(reqs: seq<Request>, log: seq<nat>, name: string, v: string)
    ensures v in Brought(reqs, log, name) <==> exists i :: i in log && i < |reqs| && reqs[i].name == name && reqs[i].version == v
  {
    if log != [] {
      var n := |log| - 1;
      BroughtExact(reqs, log[..n], name, v);
      assert forall i :: i in log <==> i in log[..n] || i == log[n];
    }
  }

  function VersionsIn(files: Tree, name: string): seq<string> {
    match Existing(At(files, name))
    case None => []
    case Some(m) => if VersionList(m).Some? then VersionList(m).value else []
  }

  ghost predicate Succeeded(s: Race, reqs: seq<Request>, i: int) {
    0 <= i < |reqs| && i < |s.pcs| && Took(s.pcs[i])
  }

  lemma SerialVersions(s: Race, reqs: seq<Request>, files0: Tree, name: string, v: string)
    requires Inv(s, reqs, files0)
    ensures v in VersionsIn(s.files, name) <==> v in VersionsIn(files0, name) || v in Brought(reqs, s.log, name)
  {
    assert Serial(files0, s.files, reqs, s.log, name);
    AllVersionsExact(VersionsIn(files0, name), Brought(reqs, s.log, name), v);
  }

  lemma NothingBrought(s: Race, reqs: seq<Request>, files0: Tree, name: string)
    requires Inv(s, reqs, files0)
    requires forall i | Succeeded(s, reqs, i) :: reqs[i].name != name
    ensures At(s.files, name) == At(files0, name)
  {
    assert Serial(files0, s.files, reqs, s.log, name);
    var b := Brought(reqs, s.log, name);
    if b != [] {
      BroughtExact(reqs, s.log, name, b[0]);
    }
  }

  /** No lost update, at every moment of every interleaving: a module's version set is its
      initial set plus the versions whose merges have succeeded, and a module that no merge
      has succeeded on is untouched. */
  lemma NoLostVersion(files0: Tree, reqs: seq<Request>, steps: seq<Step>, name: string, v: string)
    requires Run(Start(files0, |reqs|), reqs, steps)
    ensures var s := Execute(Start(files0, |reqs|), reqs, steps);
            && (v in VersionsIn(s.files, name) <==>
                || v in VersionsIn(files0, name)
                || exists i :: Succeeded(s, reqs, i) && reqs[i].name == name && reqs[i].version == v)
            && ((forall i | Succeeded(s, reqs, i) :: reqs[i].name != name) ==> At(s.files, name) == At(files0, name))
  {
    var s := Execute(Start(files0, |reqs|), reqs, steps);
    StartInv(files0, reqs);
    RunKeeps(Start(files0, |reqs|), reqs, steps, files0);
    SerialVersions(s, reqs, files0, name, v);
    BroughtExact(reqs, s.log, name, v);
    assert forall i :: i in s.log <==> Succeeded(s, reqs, i);
    if forall i | Succeeded(s, reqs, i) :: reqs[i].name != name {
      NothingBrought(s, reqs, files0, name);
    }
  }

  /** Two interleavings in which the same callers succeed leave the same list in every module. */
  lemma OrderFree(files0: Tree, reqs: seq<Request>, steps: seq<Step>, steps': seq<Step>, name: string)
    requires Run(Start(files0, |reqs|), reqs, steps) && Run(Start(files0, |reqs|), reqs, steps')
    requires forall i :: i in Execute(Start(files0, |reqs|), reqs, steps).log <==> i in Execute(Start(files0, |reqs|), reqs, steps').log
    ensures VersionsIn(Execute(Start(files0, |reqs|), reqs, steps).files, name) ==
            VersionsIn(Execute(Start(files0, |reqs|), reqs, steps').files, name)
  {
    var s, t := Execute(Start(files0, |reqs|), reqs, steps), Execute(Start(files0, |reqs|), reqs, steps');
    StartInv(files0, reqs);
    RunKeeps(Start(files0, |reqs|), reqs, steps, files0);
    RunKeeps(Start(files0, |reqs|), reqs, steps', files0);
    assert Serial(files0, s.files, reqs, s.log, name) && Serial(files0, t.files, reqs, t.log, name);
    SerialOrderFree(files0, s.files, t.files, reqs, s.log, t.log, name);
  }

  lemma SerialOrderFree(files0: Tree, files: Tree, files': Tree, reqs: seq<Request>, log: seq<nat>, log': seq<nat>, name: string)
    requires Serial(files0, files, reqs, log, name) && Serial(files0, files', reqs, log', name)
    requires forall i :: i in log <==> i in log'
    ensures VersionsIn(files, name) == VersionsIn(files', name)
  {
    SameBrought(reqs, log, log', name);
    AllVersionsOrderFree(VersionsIn(files0, name), Brought(reqs, log, name), Brought(reqs, log', name));
  }

  lemma SameBrought(reqs: seq<Request>, log: seq<nat>, log': seq<nat>, name: string)
    requires forall i :: i in log <==> i in log'
    ensures var a, b := Brought(reqs, log, name), Brought(reqs, log', name);
            (forall v :: v in a <==> v in b) && (a == [] <==> b == [])
  {
    var a, b := Brought(reqs, log, name), Brought(reqs, log', name);
    forall v
      ensures v in a <==> v in b
    {
      BroughtExact(reqs, log, name, v);
      BroughtExact(reqs, log', name, v);
    }
    assert a != [] ==> a[0] in a;
    assert b != [] ==> b[0] in b;
  }
}
