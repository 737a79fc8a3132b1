/** The module listing and the single-module summary (internal/bzlhub/service_modules.go). */
module ModuleListing {
  import opened Ordering
  import opened Wrappers

  /** One row of the versions table; ingestion times are nanoseconds, None for the zero time. */
  datatype Row = Row(m: string, version: string, ingested: Option<int>)

  predicate IsStub(version: string) {
    version == "" || version == "0" || version == "0.0.0"
  }

  /** The fields both operations fill. An ingestion time is kept to the second; diff holds the
      versions a diff link goes from and to. */
  datatype Summary = Summary(name: string, latest: string, count: nat, ingested: Option<int>,
    diff: Option<(string, string)>, isNew: bool)

  const SECOND := 1_000_000_000
  const HORIZON := 7 * 24 * 3600 * SECOND

  /** RFC 3339 text to the second, and back. */
  function Formatted(t: Option<int>): Option<int> {
    if t.None? then None else Some(t.value / SECOND)
  }

  predicate IsNew(count: nat, ingested: Option<int>, now: int) {
    count == 1 && ingested.Some? && now - ingested.value * SECOND <= HORIZON
  }

  // ----- What a summary is -----

  /** The rows of one module, in their order. */
  function RowsOf(rows: seq<Row>, m: string): seq<Row> {
    if rows == [] then []
    else RowsOf(rows[..|rows| - 1], m) + if rows[|rows| - 1].m == m then [rows[|rows| - 1]] else []
  }

  function Real(rows: seq<Row>): seq<string> {
    if rows == [] then []
    else Real(rows[..|rows| - 1]) + if IsStub(rows[|rows| - 1].version) then [] else [rows[|rows| - 1].version]
  }

  /** The time of the last row that has one. */
  function LastTime(rows: seq<Row>): Option<int> {
    if rows == [] then None
    else if rows[|rows| - 1].ingested.Some? then Formatted(rows[|rows| - 1].ingested)
    else LastTime(rows[..|rows| - 1])
  }

  function DiffOf(kept: seq<string>): Option<(string, string)> {
    if |kept| < 2 then None else Some((kept[|kept| - 2], kept[|kept| - 1]))
  }

  /** Of a module's rows in ascending order. */
  function SummaryOf(m: string, rows: seq<Row>, now: int): Summary
    requires rows != []
  {
    Summary(m, rows[|rows| - 1].version, |rows|, LastTime(rows), DiffOf(Real(rows)), IsNew(|rows|, LastTime(rows), now))
  }

  lemma {:induction false} RowsOfIn(rows: seq<Row>, m: string, r: Row)
    ensures r in RowsOf(rows, m) <==> r in rows && r.m == m
  {
    if rows != [] {
      RowsOfIn(rows[..|rows| - 1], m, r);
      assert r in rows <==> r in rows[..|rows| - 1] || r == rows[|rows| - 1];
    }
  }

  /** i and j are the last two rows that are not stubs. */
  predicate LastTwoReal(rows: seq<Row>, i: nat, j: nat) {
    && i < j < |rows| && NotStub(rows[i]) && NotStub(rows[j])
    && forall k | i < k < |rows| && k != j :: !NotStub(rows[k])
  }

  predicate NotStub(row: Row) {
    row.version != "" && row.version != "0" && row.version != "0.0.0"
  }

  lemma {:induction false} RealAll(rows: seq<Row>, n: nat)
    requires n <= |rows| && forall k | n <= k < |rows| :: !NotStub(rows[k])
    ensures Real(rows) == Real(rows[..n])
    decreases |rows|
  {
    if n < |rows| {
      RealAll(rows[..|rows| - 1], n);
      assert rows[..|rows| - 1][..n] == rows[..n];
    } else {
      assert rows[..n] == rows;
    }
  }

  lemma {:induction false} RealLast(rows: seq<Row>, j: nat)
    requires j < |rows| && NotStub(rows[j]) && forall k | j < k < |rows| :: !NotStub(rows[k])
    ensures Real(rows) == Real(rows[..j]) + [rows[j].version]
  {
    RealAll(rows, j + 1);
    assert rows[..j + 1][..j] == rows[..j];
  }

  lemma RealLastTwo(rows: seq<Row>, i: nat, j: nat)
    requires LastTwoReal(rows, i, j)
    ensures |Real(rows)| >= 2 && DiffOf(Real(rows)) == Some((rows[i].version, rows[j].version))
  {
    RealLast(rows, j);
    RealLast(rows[..j], i);
    assert rows[..j][..i] == rows[..i];
  }

  lemma {:induction false} FewReal(rows: seq<Row>, i: nat)
    requires forall k | 0 <= k < |rows| && NotStub(rows[k]) :: k == i
    ensures |Real(rows)| <= 1
  {
    if exists k :: 0 <= k < |rows| && NotStub(rows[k]) {
      RealLast(rows, i);
      RealAll(rows[..i], 0);
      assert rows[..i][..0] == [];
    } else {
      RealAll(rows, 0);
      assert rows[..0] == [];
    }
  }

  lemma {:induction false} LastTimeAt(rows: seq<Row>, i: nat)
    requires i < |rows| && rows[i].ingested.Some? && forall k | i < k < |rows| :: rows[k].ingested.None?
    ensures LastTime(rows) == Formatted(rows[i].ingested)
  {
    if i < |rows| - 1 {
      LastTimeAt(rows[..|rows| - 1], i);
    }
  }

  /** A summary, of the rows of one module in ascending order: the version of the last row; how many rows
      there are; the diff link from the last but one to the last version that is not empty, 0 or 0.0.0. */
  lemma SummaryExact(m: string, rows: seq<Row>, now: int, i: nat, j: nat)
    requires rows != []
    ensures var s := SummaryOf(m, rows, now);
            && s.name == m && s.latest == rows[|rows| - 1].version && s.count == |rows|
            && (LastTwoReal(rows, i, j) ==> s.diff == Some((rows[i].version, rows[j].version)))
            && ((forall k | 0 <= k < |rows| && NotStub(rows[k]) :: k == i) ==> s.diff == None)
  {
    if LastTwoReal(rows, i, j) {
      RealLastTwo(rows, i, j);
    }
    if forall k | 0 <= k < |rows| && NotStub(rows[k]) :: k == i {
      FewReal(rows, i);
    }
  }

  /** Its time is that of the last row that has one, in whole seconds; it is new when it is the only row
      and that time is at most 604800 seconds ago. */
  lemma TimeExact(m: string, rows: seq<Row>, now: int, i: nat)
    requires i < |rows| && rows[i].ingested.Some? && forall k | i < k < |rows| :: rows[k].ingested.None?
    ensures var s, t := SummaryOf(m, rows, now), rows[i].ingested.value;
            && s.ingested.Some? && 0 <= t - s.ingested.value * 1_000_000_000 < 1_000_000_000
            && (s.isNew <==> |rows| == 1 && now <= (s.ingested.value + 604_800) * 1_000_000_000)
  {
    LastTimeAt(rows, i);
  }

  lemma {:induction false} NoTime(m: string, rows: seq<Row>, now: int)
    requires rows != [] && forall r | r in rows :: r.ingested.None?
    ensures SummaryOf(m, rows, now).ingested == None && !SummaryOf(m, rows, now).isNew
  {
    LastTimeNone(rows);
  }

  // ----- ListModules -----

  datatype Track = Track(prev: string, latest: string)

  /** The entries and the track table while the rows stream by. */
  datatype Stream = Stream(out: seq<Summary>, track: map<string, Track>)

  function Tracked(track: map<string, Track>, row: Row): map<string, Track> {
    if IsStub(row.version) then track
    else track[row.m := Track(if row.m in track then track[row.m].latest else "", row.version)]
  }

  function Entered(out: seq<Summary>, row: Row): seq<Summary> {
    var n := |out|;
    if n > 0 && out[n - 1].name == row.m then
      out[n - 1 := out[n - 1].(latest := row.version, count := out[n - 1].count + 1,
                               ingested := if row.ingested.Some? then Formatted(row.ingested) else out[n - 1].ingested)]
    else out + [Summary(row.m, row.version, 1, Formatted(row.ingested), None, false)]
  }

  function Streamed(rows: seq<Row>): Stream {
    if rows == [] then Stream([], map[])
    else
      var s, row := Streamed(rows[..|rows| - 1]), rows[|rows| - 1];
      Stream(Entered(s.out, row), Tracked(s.track, row))
  }

  function Finished(e: Summary, track: map<string, Track>, now: int): Summary {
    e.(diff := if e.name in track && track[e.name].prev != "" && track[e.name].latest != ""
               then Some((track[e.name].prev, track[e.name].latest)) else e.diff,
       isNew := e.isNew || IsNew(e.count, e.ingested, now))
  }

  method ListModules(rows: seq<Row>, now: int) returns (out: seq<Summary>)
    ensures |out| == |Streamed(rows).out|
    ensures forall i | 0 <= i < |out| :: out[i] == Finished(Streamed(rows).out[i], Streamed(rows).track, now)
  {
    out := [];
    var track: map<string, Track> := map[];
    for i := 0 to |rows|
      invariant Stream(out, track) == Streamed(rows[..i])
    {
      assert rows[..i + 1][..i] == rows[..i];
      var mv := rows[i];
      if !IsStub(mv.version) {
        var t := if mv.m in track then track[mv.m] else Track("", "");
        track := track[mv.m := Track(t.latest, mv.version)];
      }
      var n := |out|;
      if n > 0 && out[n - 1].name == mv.m {
        var e := out[n - 1].(latest := mv.version, count := out[n - 1].count + 1);
        if mv.ingested.Some? {
          e := e.(ingested := Formatted(mv.ingested));
        }
        out := out[n - 1 := e];
      } else {
        var entry := Summary(mv.m, mv.version, 1, None, None, false);
        if mv.ingested.Some? {
          entry := entry.(ingested := Formatted(mv.ingested));
        }
        out := out + [entry];
      }
    }
    assert rows[..|rows|] == rows;
    out := LastPass(out, track, now);
  }

  /** Diff links and new marks, once every row has been seen. */
  method LastPass(streamed: seq<Summary>, track: map<string, Track>, now: int) returns (out: seq<Summary>)
    ensures |out| == |streamed|
    ensures forall i | 0 <= i < |out| :: out[i] == Finished(streamed[i], track, now)
  {
    out := streamed;
    for i := 0 to |out|
      invariant |out| == |streamed|
      invariant forall j | 0 <= j < i :: out[j] == Finished(streamed[j], track, now)
      invariant forall j | i <= j < |out| :: out[j] == streamed[j]
    {
      var e := out[i];
      if e.name in track && track[e.name].prev != "" && track[e.name].latest != "" {
        e := e.(diff := Some((track[e.name].prev, track[e.name].latest)));
      }
      if e.count == 1 && e.ingested.Some? && now - e.ingested.value * SECOND <= HORIZON {
        e := e.(isNew := true);
      }
      out := out[i := e];
    }
  }

  /** As the store lists them: by module name. */
  ghost predicate ByModule(rows: seq<Row>) {
    forall i, j | 0 <= i < j < |rows| :: AtMost(rows[i].m, rows[j].m)
  }

  /** An entry as it is before the last pass. */
  ghost predicate Bare(e: Summary, rows: seq<Row>) {
    rows != [] && e == Summary(e.name, rows[|rows| - 1].version, |rows|, LastTime(rows), None, false)
  }

  ghost predicate Has(out: seq<Summary>, m: string) {
    exists k :: 0 <= k < |out| && out[k].name == m
  }

  ghost predicate Ascending(out: seq<Summary>) {
    forall j, k | 0 <= j < k < |out| :: Below(out[j].name, out[k].name)
  }

  /** One entry for every module that has rows, in order, and the last one is still open. */
  ghost predicate OneEach(out: seq<Summary>, rows: seq<Row>) {
    && Ascending(out)
    && (forall k | 0 <= k < |out| :: Bare(out[k], RowsOf(rows, out[k].name)))
    && (forall m | RowsOf(rows, m) != [] :: Has(out, m))
    && (rows != [] ==> out != [] && out[|out| - 1].name == rows[|rows| - 1].m)
  }

  lemma RowsOfMore(rows: seq<Row>, row: Row, m: string)
    ensures RowsOf(rows + [row], m) == if row.m == m then RowsOf(rows, m) + [row] else RowsOf(rows, m)
  {
    assert (rows + [row])[..|rows|] == rows;
  }

  lemma LastTimeMore(rows: seq<Row>, row: Row)
    ensures LastTime(rows + [row]) == if row.ingested.Some? then Formatted(row.ingested) else LastTime(rows)
  {
    assert (rows + [row])[..|rows|] == rows;
  }

  lemma RealMore(rows: seq<Row>, row: Row)
    ensures Real(rows + [row]) == if IsStub(row.version) then Real(rows) else Real(rows) + [row.version]
  {
    assert (rows + [row])[..|rows|] == rows;
  }

  lemma BareMore(e: Summary, rows: seq<Row>, row: Row)
    requires Bare(e, rows)
    ensures Bare(e.(latest := row.version, count := e.count + 1, ingested := if row.ingested.Some? then Formatted(row.ingested) else e.ingested), rows + [row])
  {
    LastTimeMore(rows, row);
  }

  lemma HasMore(out: seq<Summary>, out': seq<Summary>, rows: seq<Row>, row: Row)
    requires forall m | RowsOf(rows, m) != [] :: Has(out, m)
    requires |out| <= |out'| && (forall k | 0 <= k < |out| :: out'[k].name == out[k].name)
    requires out' != [] && out'[|out'| - 1].name == row.m
    ensures forall m | RowsOf(rows + [row], m) != [] :: Has(out', m)
  {
    forall m | RowsOf(rows + [row], m) != []
      ensures Has(out', m)
    {
      RowsOfMore(rows, row, m);
      if m != row.m {
        var k :| 0 <= k < |out| && out[k].name == m;
        assert out'[k].name == m;
      }
    }
  }

  /** The open entry takes a row of its module. */
  lemma SameModule(out: seq<Summary>, rows: seq<Row>, row: Row)
    requires OneEach(out, rows) && out != [] && out[|out| - 1].name == row.m
    ensures OneEach(Entered(out, row), rows + [row])
  {
    var out', n := Entered(out, row), |out| - 1;
    BareMore(out[n], RowsOf(rows, row.m), row);
    HasMore(out, out', rows, row);
    forall k | 0 <= k < |out'|
      ensures Bare(out'[k], RowsOf(rows + [row], out'[k].name))
    {
      RowsOfMore(rows, row, out'[k].name);
      if k < n {
        Trichotomy(out[k].name, row.m);
      }
    }
  }

  /** Any other row opens a new entry: its module is above all before it. */
  lemma NextModule(out: seq<Summary>, rows: seq<Row>, row: Row)
    requires OneEach(out, rows) && !(out != [] && out[|out| - 1].name == row.m)
    requires rows != [] ==> AtMost(rows[|rows| - 1].m, row.m)
    ensures OneEach(Entered(out, row), rows + [row])
  {
    var out' := Entered(out, row);
    AllBelow(out, rows, row);
    NoneYet(out, rows, row.m);
    HasMore(out, out', rows, row);
    LastTimeMore([], row);
    forall k | 0 <= k < |out'|
      ensures Bare(out'[k], RowsOf(rows + [row], out'[k].name))
    {
      RowsOfMore(rows, row, out'[k].name);
      if k < |out| {
        Trichotomy(out[k].name, row.m);
      }
    }
  }

  lemma AllBelow(out: seq<Summary>, rows: seq<Row>, row: Row)
    requires OneEach(out, rows) && !(out != [] && out[|out| - 1].name == row.m)
    requires rows != [] ==> AtMost(rows[|rows| - 1].m, row.m)
    ensures forall k | 0 <= k < |out| :: Below(out[k].name, row.m)
  {
    forall k | 0 <= k < |out|
      ensures Below(out[k].name, row.m)
    {
      assert rows != [] by {
        assert Bare(out[k], RowsOf(rows, out[k].name));
      }
      if k < |out| - 1 {
        Transitive(out[k].name, out[|out| - 1].name, row.m);
      }
    }
  }

  lemma NoneYet(out: seq<Summary>, rows: seq<Row>, m: string)
    requires OneEach(out, rows) && forall k | 0 <= k < |out| :: Below(out[k].name, m)
    ensures RowsOf(rows, m) == []
  {
    Trichotomy(m, m);
  }

  lemma {:induction false} StreamedOneEach(rows: seq<Row>)
    requires ByModule(rows)
    ensures OneEach(Streamed(rows).out, rows)
  {
    if rows != [] {
      var n := |rows| - 1;
      var out := Streamed(rows[..n]).out;
      StreamedOneEach(rows[..n]);
      assert rows == rows[..n] + [rows[n]];
      if out != [] && out[|out| - 1].name == rows[n].m {
        SameModule(out, rows[..n], rows[n]);
      } else {
        NextModule(out, rows[..n], rows[n]);
      }
    }
  }

  /** The last two real versions, "" where there is none. */
  function LastTwo(kept: seq<string>): Track {
    Track(if |kept| > 1 then kept[|kept| - 2] else "", if |kept| > 0 then kept[|kept| - 1] else "")
  }

  /** The track table holds the last two real versions of every module that has any. */
  ghost predicate TracksReal(track: map<string, Track>, m: string, kept: seq<string>) {
    (m in track <==> kept != []) && (m in track ==> track[m] == LastTwo(kept))
  }

  lemma TrackedKeeps(track: map<string, Track>, rows: seq<Row>, row: Row, m: string)
    requires TracksReal(track, m, Real(RowsOf(rows, m)))
    ensures TracksReal(Tracked(track, row), m, Real(RowsOf(rows + [row], m)))
  {
    RowsOfMore(rows, row, m);
    RealMore(RowsOf(rows, m), row);
  }

  lemma {:induction false} StreamedTracks(rows: seq<Row>, m: string)
    ensures TracksReal(Streamed(rows).track, m, Real(RowsOf(rows, m)))
  {
    if rows != [] {
      var n := |rows| - 1;
      StreamedTracks(rows[..n], m);
      assert rows == rows[..n] + [rows[n]];
      TrackedKeeps(Streamed(rows[..n]).track, rows[..n], rows[n], m);
    }
  }

  lemma {:induction false} RealNotStub(rows: seq<Row>)
    ensures forall v | v in Real(rows) :: !IsStub(v)
  {
    if rows != [] {
      RealNotStub(rows[..|rows| - 1]);
    }
  }

  /** On rows listed by module, the listing has one entry for each module with rows, in order, and it
      is that module's summary. */
  lemma ListingExact(rows: seq<Row>, now: int)
    requires ByModule(rows)
    ensures var s := Streamed(rows);
            && Ascending(s.out)
            && (forall m :: Has(s.out, m) <==> RowsOf(rows, m) != [])
            && (forall k | 0 <= k < |s.out| :: RowsOf(rows, s.out[k].name) != []
                  && Finished(s.out[k], s.track, now) == SummaryOf(s.out[k].name, RowsOf(rows, s.out[k].name), now))
  {
    StreamedOneEach(rows);
    var s := Streamed(rows);
    forall k | 0 <= k < |s.out|
      ensures RowsOf(rows, s.out[k].name) != []
        && Finished(s.out[k], s.track, now) == SummaryOf(s.out[k].name, RowsOf(rows, s.out[k].name), now)
    {
      FinishedExact(rows, s.out[k], now);
    }
  }

  lemma FinishedExact(rows: seq<Row>, e: Summary, now: int)
    requires Bare(e, RowsOf(rows, e.name))
    ensures Finished(e, Streamed(rows).track, now) == SummaryOf(e.name, RowsOf(rows, e.name), now)
  {
    var kept := Real(RowsOf(rows, e.name));
    StreamedTracks(rows, e.name);
    RealNotStub(RowsOf(rows, e.name));
    assert |kept| > 0 ==> kept[|kept| - 1] in kept;
    assert |kept| > 1 ==> kept[|kept| - 2] in kept;
  }

  function Counts(out: seq<Summary>): nat {
    if out == [] then 0 else Counts(out[..|out| - 1]) + out[|out| - 1].count
  }

  /** Whatever the order of the rows, no row is lost or counted twice. */
  lemma {:induction false} CountsSum(rows: seq<Row>)
    ensures Counts(Streamed(rows).out) == |rows|
  {
    if rows != [] {
      var n := |rows| - 1;
      CountsSum(rows[..n]);
      var out, out' := Streamed(rows[..n]).out, Streamed(rows).out;
      assert out'[..|out'| - 1] == if |out'| == |out| then out[..|out| - 1] else out;
    }
  }

  // ----- GetModule -----

  function RealFront(rows: seq<Row>): seq<string> {
    if rows == [] then []
    else (if IsStub(rows[0].version) then [] else [rows[0].version]) + RealFront(rows[1..])
  }

  /** Of a module's rows in descending order; None for "module not found". */
  function Fetched(name: string, rows: seq<Row>, now: int): Option<Summary> {
    if name == "" || rows == [] then None
    else
      var kept := RealFront(rows);
      Some(Summary(name, rows[0].version, |rows|, Formatted(rows[0].ingested),
                   if |kept| < 2 then None else Some((kept[1], kept[0])),
                   IsNew(|rows|, Formatted(rows[0].ingested), now)))
  }

  /** There is no summary without a name or without rows. */
  lemma NotFoundExact(name: string, rows: seq<Row>, now: int)
    ensures Fetched(name, rows, now) == None <==> name == "" || rows == []
  {
  }

  method GetModule(name: string, rows: seq<Row>, now: int) returns (out: Option<Summary>)
    ensures out == Fetched(name, rows, now)
  {
    if name == "" {
      return None;
    }
    if |rows| == 0 {
      return None;
    }
    var latestNonStub, prevNonStub := TwoNewest(rows);
    FirstTwoSet(rows);
    var e := Summary(name, rows[0].version, |rows|, None, None, false);
    if rows[0].ingested.Some? {
      e := e.(ingested := Formatted(rows[0].ingested));
    }
    if prevNonStub != "" && latestNonStub != "" {
      e := e.(diff := Some((prevNonStub, latestNonStub)));
    }
    if e.count == 1 && e.ingested.Some? {
      if now - e.ingested.value * SECOND <= HORIZON {
        e := e.(isNew := true);
      }
    }
    return Some(e);
  }

  lemma RealFrom(rows: seq<Row>, i: nat)
    requires i < |rows|
    ensures RealFront(rows[i..]) == (if IsStub(rows[i].version) then [] else [rows[i].version]) + RealFront(rows[i + 1..])
  {
    assert rows[i..][1..] == rows[i + 1..];
  }

  /** The first two, "" where there is none. */
  function FirstTwo(kept: seq<string>): Track {
    Track(if |kept| > 1 then kept[1] else "", if |kept| > 0 then kept[0] else "")
  }

  lemma {:induction false} RealFrontNotStub(rows: seq<Row>)
    ensures forall v | v in RealFront(rows) :: !IsStub(v)
  {
    if rows != [] {
      RealFrontNotStub(rows[1..]);
    }
  }

  lemma FirstTwoSet(rows: seq<Row>)
    ensures var kept := RealFront(rows); FirstTwo(kept).prev != "" && FirstTwo(kept).latest != "" <==> |kept| > 1
  {
    RealFrontNotStub(rows);
    var kept := RealFront(rows);
    assert |kept| > 1 ==> kept[0] in kept && kept[1] in kept;
  }

  /** The scan for the two most recent versions that are not stubs. */
  method TwoNewest(rows: seq<Row>) returns (latest: string, prev: string)
    ensures Track(prev, latest) == FirstTwo(RealFront(rows))
  {
    latest, prev := "", "";
    ghost var rest := RealFront(rows);
    for i := 0 to |rows|
      invariant prev == "" && rest == RealFront(rows[i..])
      invariant RealFront(rows) == if latest == "" then rest else [latest] + rest
    {
      RealFrom(rows, i);
      rest := RealFront(rows[i + 1..]);
      if IsStub(rows[i].version) {
        continue;
      }
      if latest == "" {
        latest := rows[i].version;
      } else if prev == "" {
        prev := rows[i].version;
        return;
      }
    }
  }

  function Reversed<T>(s: seq<T>): (r: seq<T>)
    ensures |r| == |s| && forall i | 0 <= i < |s| :: r[i] == s[|s| - 1 - i]
  {
    seq(|s|, i requires 0 <= i < |s| => s[|s| - 1 - i])
  }

  lemma {:induction false} RealReversed(rows: seq<Row>)
    ensures RealFront(Reversed(rows)) == Reversed(Real(rows))
  {
    if rows != [] {
      var rest := rows[..|rows| - 1];
      RealReversed(rest);
      assert Reversed(rows)[1..] == Reversed(rest);
    }
  }

  lemma {:induction false} LastTimeNone(rows: seq<Row>)
    ensures LastTime(rows) == None <==> forall r | r in rows :: r.ingested.None?
  {
    if rows != [] {
      LastTimeNone(rows[..|rows| - 1]);
      assert forall r :: r in rows <==> r in rows[..|rows| - 1] || r == rows[|rows| - 1];
    }
  }

  /** The single-module summary is the listing's entry for that module, except that the listing
      remembers an earlier row's ingestion time where the latest row has none: the two are equal
      exactly when the latest row's time is set or no row's is. */
  lemma SameSummary(name: string, rows: seq<Row>, now: int)
    requires name != "" && rows != []
    ensures var got, listed := Fetched(name, Reversed(rows), now), SummaryOf(name, rows, now);
            && got.Some?
            && got.value.(ingested := None) == listed.(ingested := None)
            && (got.value == listed <==> rows[|rows| - 1].ingested.Some? || forall r | r in rows :: r.ingested.None?)
  {
    RealReversed(rows);
    LastTimeNone(rows);
    if |rows| == 1 {
      assert rows[..0] == [];
    }
  }

  /** So on rows listed by module with all ingestion times set, GetModule over a module's rows in
      descending order is its entry in ListModules. */
  lemma GetMatchesList(rows: seq<Row>, k: nat, now: int)
    requires ByModule(rows) && k < |Streamed(rows).out| && Streamed(rows).out[k].name != ""
    requires forall r | r in rows :: r.ingested.Some?
    ensures var e := Streamed(rows).out[k];
            Fetched(e.name, Reversed(RowsOf(rows, e.name)), now) == Some(Finished(e, Streamed(rows).track, now))
  {
    var e := Streamed(rows).out[k];
    ListingExact(rows, now);
    var mine := RowsOf(rows, e.name);
    RowsOfIn(rows, e.name, mine[|mine| - 1]);
    SameSummary(e.name, mine, now);
  }
}
