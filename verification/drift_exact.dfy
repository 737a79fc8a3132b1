/** What the drift verdicts say, in the versions of the two sides (internal/drift/drift.go,
    internal/drift/per_version.go). */
module DriftExact {
  import opened Drift
  import opened Wrappers

  /** One version more is kept, at the end, exactly when it passes. */
  lemma FilterMore(s: seq<string>, p: string -> bool, x: string)
    ensures Filter(s + [x], p) == Filter(s, p) + (if p(x) then [x] else []) && Filter([], p) == []
  {
    assert (s + [x])[..|s|] == s;
  }

  /** Without an answer that lists versions: everything held is local only, or the error is reported. */
  lemma UnansweredExact(name: string, local: seq<string>, message: string)
    ensures var d := DriftOf(name, local, NotFound);
            && d.name == name && d.status == LocalOnly && d.localVersions == d.localOnlyVersions == local && d.localLatest == Latest(local)
            && d.missingLocally == d.newerUpstream == d.yankedAtUpstream == d.upstreamVersions == [] && d.upstreamLatest == d.error == ""
    ensures var d := DriftOf(name, local, Failed(message));
            && d.name == name && d.status == UpstreamError && d.error == message && d.localVersions == local && d.localLatest == Latest(local)
            && d.missingLocally == d.newerUpstream == d.yankedAtUpstream == d.localOnlyVersions == d.upstreamVersions == [] && d.upstreamLatest == ""
  {
  }

  /** Missing is what upstream has and the mirror does not, newer what of it is above the local latest,
      local only the reverse, and yanked what is held although upstream has withdrawn it. */
  lemma ListsExact(name: string, local: seq<string>, up: Metadata, v: string)
    ensures var d := DriftOf(name, local, Found(up));
            && d.localVersions == local && d.upstreamVersions == up.versions
            && d.localLatest == Latest(local) && d.upstreamLatest == Latest(up.versions)
            && (v in d.missingLocally <==> v in up.versions && v !in local)
            && (v in d.newerUpstream <==> v in up.versions && v !in local && Compare(v, d.localLatest) > 0)
            && (v in d.localOnlyVersions <==> v in local && v !in up.versions)
            && (v in d.yankedAtUpstream <==> v in local && v in up.yanked)
  {
    FilterExact(up.versions, x => x !in local, v);
    FilterExact(local, x => x !in up.versions, v);
    FilterExact(local, x => x in up.yanked, v);
    FilterExact(Missing(up.versions, local), NewerThan(Latest(local)), v);
  }

  /** A held version that is yanked decides; then a missing one above the local latest. */
  lemma StatusOfModule(name: string, local: seq<string>, up: Metadata)
    ensures var status := DriftOf(name, local, Found(up)).status;
            && (status == YankedUpstream <==> exists v :: v in local && v in up.yanked)
            && (status == Behind <==>
                  && (forall v | v in local :: v !in up.yanked)
                  && (exists v :: v in up.versions && v !in local && Compare(v, Latest(local)) > 0))
            && (status == YankedUpstream || status == Behind || status == InSync)
  {
    var d := DriftOf(name, local, Found(up));
    forall v
      ensures v in d.yankedAtUpstream <==> v in local && v in up.yanked
      ensures v in d.newerUpstream <==> v in up.versions && v !in local && Compare(v, Latest(local)) > 0
    {
      ListsExact(name, local, up, v);
    }
    assert d.yankedAtUpstream != [] ==> d.yankedAtUpstream[0] in d.yankedAtUpstream;
    assert d.newerUpstream != [] ==> d.newerUpstream[0] in d.newerUpstream;
  }

  /** The same for one version, which counts everything above it, held or not. */
  lemma StatusOfVersion(local: string, up: Metadata)
    ensures VersionDriftOf(local, None) == VersionDrift(LocalOnly, 0, "")
    ensures local in up.yanked ==> VersionDriftOf(local, Some(up)) == VersionDrift(YankedUpstream, 0, Latest(up.versions))
    ensures local !in up.yanked ==>
              var d := VersionDriftOf(local, Some(up));
              && (d.status == Behind <==> exists v :: v in up.versions && Compare(v, local) > 0)
              && (d.status == Behind ==> d.behind == CountAbove(Compare, up.versions, local) && d.latestUpstream == Latest(up.versions))
              && (d.status != Behind ==> d == VersionDrift(InSync, 0, ""))
  {
    CountIs(Compare, up.versions, local);
    var newer := Filter(up.versions, NewerThan(local));
    forall v
      ensures v in newer <==> v in up.versions && Compare(v, local) > 0
    {
      FilterExact(up.versions, NewerThan(local), v);
    }
    assert newer != [] ==> newer[0] in newer;
  }

  /** How many entries of the list are above v, repetitions included. */
  function CountAbove(cmp: (string, string) -> int, up: seq<string>, v: string): nat {
    if up == [] then 0 else (if cmp(up[0], v) > 0 then 1 else 0) + CountAbove(cmp, up[1..], v)
  }

  lemma {:induction false} CountMore(cmp: (string, string) -> int, up: seq<string>, x: string, v: string)
    ensures CountAbove(cmp, up + [x], v) == CountAbove(cmp, up, v) + if cmp(x, v) > 0 then 1 else 0
  {
    if up == [] {
      assert [x][1..] == [] && up + [x] == [x];
    } else {
      CountMore(cmp, up[1..], x, v);
      assert (up + [x])[1..] == up[1..] + [x];
    }
  }

  lemma {:induction false} CountIs(cmp: (string, string) -> int, up: seq<string>, v: string)
    ensures |Filter(up, Above(cmp, v))| == CountAbove(cmp, up, v)
  {
    if up != [] {
      var n := |up| - 1;
      CountIs(cmp, up[..n], v);
      CountMore(cmp, up[..n], up[n], v);
      assert up == up[..n] + [up[n]];
    }
  }

  ghost function With(modules: seq<ModuleDrift>, status: Status): set<int> {
    set i | 0 <= i < |modules| && modules[i].status == status
  }

  lemma WithMore(modules: seq<ModuleDrift>, status: Status)
    requires modules != []
    ensures var n := |modules| - 1;
            |With(modules, status)| == |With(modules[..n], status)| + if modules[n].status == status then 1 else 0
  {
    var n := |modules| - 1;
    var before, at := With(modules[..n], status), With(modules, status);
    forall i
      ensures i in at <==> i in before || (i == n && modules[n].status == status)
    {
    }
    if modules[n].status == status {
      assert at == before + {n};
    } else {
      assert at == before;
    }
  }

  /** A tally is the number of modules with that status. */
  lemma {:induction false} CountOfExact(modules: seq<ModuleDrift>, status: Status)
    ensures CountOf(modules, status) == |set i | 0 <= i < |modules| && modules[i].status == status|
  {
    if modules == [] {
      assert With(modules, status) == {};
    } else {
      CountOfExact(modules[..|modules| - 1], status);
      WithMore(modules, status);
    }
    assert With(modules, status) == set i | 0 <= i < |modules| && modules[i].status == status;
  }
}
