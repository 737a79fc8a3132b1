/** Unpacking a module's source tree with a completion sentinel (internal/codenav/unpack.go), over
    the extraction of internal/archive/targz.go. */
module Unpack {
  import opened Wrappers
  import opened ContentAddress

  /** A cleaned path below the destination, by its components. */
  type Path = seq<string>

  /** What the extraction does with one archive entry; links and devices are skipped and do not
      appear.  A refused entry (an absolute path, a parent segment, no budget left) ends it, and so
      does a file that breaks off or is too big, but only once what there is has been written. */
  datatype Entry = Dir(path: Path) | File(path: Path, content: Bytes) | Cut(path: Path, content: Bytes) | Refused

  datatype Tree = Tree(files: map<Path, Bytes>, dirs: set<Path>)

  const EMPTY := Tree(map[], {})

  const SENTINEL := ".bzlhub-unpack-complete"
  const LEGACY := ".canopy-unpack-complete"

  predicate IsSentinel(name: string) {
    name == SENTINEL || name == LEGACY
  }

  predicate Exists(t: Tree, p: Path) {
    p in t.files || p in t.dirs
  }

  /** extractComplete: a file or a directory of either name is enough. */
  predicate Complete(t: Tree) {
    Exists(t, [SENTINEL]) || Exists(t, [LEGACY])
  }

  // ----- Extraction -----

  /** MkdirAll, as far as the first n components. */
  function WithDirs(t: Tree, p: Path, n: nat): Tree
    requires n <= |p|
  {
    if n == 0 then t else var t1 := WithDirs(t, p, n - 1); t1.(dirs := t1.dirs + {p[..n]})
  }

  predicate CanMake(t: Tree, p: Path, n: nat)
    requires n <= |p|
  {
    forall i | 1 <= i <= n :: p[..i] !in t.files
  }

  function Put(t: Tree, p: Path, bytes: Bytes): Tree {
    t.(files := t.files[p := bytes])
  }

  predicate CanPut(t: Tree, p: Path) {
    p != [] && CanMake(t, p, |p| - 1) && p !in WithDirs(t, p, |p| - 1).dirs
  }

  /** The tree after one entry; None when the entry fails. A path that comes again is overwritten. */
  function Extracted(t: Tree, e: Entry): Option<Tree> {
    match e
    case Refused | Cut(_, _) => None
    case Dir(p) => if CanMake(t, p, |p|) then Some(WithDirs(t, p, |p|)) else None
    case File(p, content) => if CanPut(t, p) then Some(Put(WithDirs(t, p, |p| - 1), p, content)) else None
  }

  function ExtractedAll(es: seq<Entry>): Option<Tree> {
    if es == [] then Some(EMPTY)
    else
      var before := ExtractedAll(es[..|es| - 1]);
      if before.None? then None else Extracted(before.value, es[|es| - 1])
  }

  /** A tree is taken for complete by these two names and no other. */
  lemma CompleteExact(t: Tree)
    ensures Complete(t) <==>
              || [".bzlhub-unpack-complete"] in t.files || [".bzlhub-unpack-complete"] in t.dirs
              || [".canopy-unpack-complete"] in t.files || [".canopy-unpack-complete"] in t.dirs
  {
  }

  /** A file needs the directories above it, and leaves them and its bytes; nothing else changes. */
  lemma FileExtracted(es: seq<Entry>, p: Path, content: Bytes)
    requires ExtractedAll(es).Some?
    ensures var before, after := ExtractedAll(es).value, ExtractedAll(es + [File(p, content)]);
            && (after.Some? <==> p != [] && p !in before.dirs && forall i | 0 < i < |p| :: p[..i] !in before.files)
            && (after.Some? ==>
                  && after.value.files == before.files[p := content]
                  && forall q :: q in after.value.dirs <==> q in before.dirs || exists i :: 0 < i < |p| && q == p[..i])
  {
    assert (es + [File(p, content)])[..|es|] == es;
    if p != [] {
      WithDirsExact(ExtractedAll(es).value, p, |p| - 1);
      assert forall i | 0 < i < |p| :: |p[..i]| < |p|;
    }
  }

  lemma DirExtracted(es: seq<Entry>, p: Path)
    requires ExtractedAll(es).Some?
    ensures var before, after := ExtractedAll(es).value, ExtractedAll(es + [Dir(p)]);
            && (after.Some? <==> forall i | 0 < i <= |p| :: p[..i] !in before.files)
            && (after.Some? ==>
                  && after.value.files == before.files
                  && forall q :: q in after.value.dirs <==> q in before.dirs || exists i :: 0 < i <= |p| && q == p[..i])
  {
    assert (es + [Dir(p)])[..|es|] == es;
    WithDirsExact(ExtractedAll(es).value, p, |p|);
  }

  lemma EndsExtraction(es: seq<Entry>, e: Entry)
    requires e.Refused? || e.Cut?
    ensures ExtractedAll(es + [e]) == None
  {
    assert (es + [e])[..|es|] == es;
  }

  lemma {:induction false} WithDirsExact(t: Tree, p: Path, n: nat)
    requires n <= |p|
    ensures WithDirs(t, p, n).files == t.files
    ensures forall q :: q in WithDirs(t, p, n).dirs <==> q in t.dirs || exists i :: 0 < i <= n && q == p[..i]
  {
    if n > 0 {
      WithDirsExact(t, p, n - 1);
    }
  }

  /** Where an extraction can stop inside an entry: after some of its directories, or with the file
      created and some of its bytes written. */
  datatype Stop = Stop(made: nat, bytes: Option<nat>)

  predicate CanStop(t: Tree, e: Entry, s: Stop) {
    match e
    case Refused => s == Stop(0, None)
    case Dir(p) => s.made <= |p| && CanMake(t, p, s.made) && s.bytes.None?
    case File(_, _) | Cut(_, _) =>
      var p := e.path;
      if s.bytes.None? then s.made <= |p| && (s.made == 0 || s.made < |p|) && CanMake(t, p, s.made)
      else CanPut(t, p) && s.made == |p| - 1 && s.bytes.value <= |e.content|
  }

  function StoppedAt(t: Tree, e: Entry, s: Stop): Tree
    requires CanStop(t, e, s)
  {
    match e
    case Refused => t
    case Dir(p) => WithDirs(t, p, s.made)
    case File(_, _) | Cut(_, _) =>
      var t1 := WithDirs(t, e.path, s.made);
      if s.bytes.None? then t1 else Put(t1, e.path, e.content[..s.bytes.value])
  }

  // ----- One unpackSource -----

  /** How far it gets, by a failure or a crash: while an earlier tree is cleared, before the blob is
      open, inside an entry, or to the end of the archive, with or without the sentinel. */
  datatype Progress = Clears(left: Tree) | NoBlob | Stops(after: nat, at: Stop) | Extracts(sentinel: bool)

  /** `finished` is not on disk: some call has extracted everything and written the sentinel. */
  datatype Dest = Dest(tree: Option<Tree>, finished: bool)

  const NOTHING := Dest(None, false)

  predicate Trusted(d: Dest) {
    d.tree.Some? && Complete(d.tree.value)
  }

  predicate PartOf(left: Tree, t: Tree) {
    left.dirs <= t.dirs && left.files.Keys <= t.files.Keys && forall p | p in left.files :: left.files[p] == t.files[p]
  }

  predicate Possible(d: Dest, es: seq<Entry>, p: Progress) {
    Trusted(d) ||
    match p
    case Clears(left) => d.tree.Some? && PartOf(left, d.tree.value)
    case NoBlob => true
    case Stops(after, at) =>
      after < |es| && ExtractedAll(es[..after]).Some? && CanStop(ExtractedAll(es[..after]).value, es[after], at)
    case Extracts(sentinel) =>
      ExtractedAll(es).Some? && (sentinel ==> [SENTINEL] !in ExtractedAll(es).value.dirs)
  }

  function Unpacked(d: Dest, es: seq<Entry>, p: Progress): Dest
    requires Possible(d, es, p)
  {
    if Trusted(d) then d
    else match p
      case Clears(left) => Dest(Some(left), d.finished)
      case NoBlob => Dest(None, d.finished)
      case Stops(after, at) => Dest(Some(StoppedAt(ExtractedAll(es[..after]).value, es[after], at)), d.finished)
      case Extracts(sentinel) =>
        var t := ExtractedAll(es).value;
        if sentinel then Dest(Some(Put(t, [SENTINEL], [])), true) else Dest(Some(t), d.finished)
  }

  /** What one call leaves, by how far it gets; a tree that is trusted stays as it is. */
  lemma UnpackedExact(d: Dest, es: seq<Entry>, p: Progress)
    requires Possible(d, es, p)
    ensures var d' := Unpacked(d, es, p);
            && (Trusted(d) ==> d' == d)
            && (!Trusted(d) && p.Clears? ==> d' == Dest(Some(p.left), d.finished) && PartOf(p.left, d.tree.value))
            && (!Trusted(d) && p.NoBlob? ==> d' == Dest(None, d.finished))
            && (!Trusted(d) && p == Extracts(false) ==> d' == Dest(ExtractedAll(es), d.finished))
            && (!Trusted(d) && p == Extracts(true) ==>
                  && d'.finished && d'.tree.Some? && ExtractedAll(es).Some?
                  && d'.tree.value == ExtractedAll(es).value.(files := ExtractedAll(es).value.files[[".bzlhub-unpack-complete"] := []]))
  {
  }

  /** An archive that can be extracted is, from whatever an earlier call has left, and is trusted then. */
  lemma UnpackSucceeds(d: Dest, es: seq<Entry>)
    requires !Trusted(d) && ExtractedAll(es).Some? && [SENTINEL] !in ExtractedAll(es).value.dirs
    ensures Possible(d, es, Extracts(true))
    ensures var d' := Unpacked(d, es, Extracts(true)); Trusted(d') && d'.finished && Whole(d'.tree.value, es)
  {
  }

  class Destination {
    var tree: Option<Tree>
    ghost var finished: bool

    ghost function State(): Dest
      reads this
    {
      Dest(tree, finished)
    }

    constructor ()
      ensures State() == NOTHING
    {
      tree, finished := None, false;
    }

    method UnpackSource(es: seq<Entry>, p: Progress) returns (ok: bool)
      requires Possible(State(), es, p)
      modifies this
      ensures State() == Unpacked(old(State()), es, p)
      ensures ok <==> Trusted(old(State())) || p == Extracts(true)
    {
      if tree.Some? && Complete(tree.value) {
        return true;
      }
      match p
      case Clears(left) =>
        tree := Some(left);
        return false;
      case NoBlob =>
        tree := None;
        return false;
      case Stops(after, at) =>
        ExtractFirst(es, after);
        tree := Some(StoppedAt(tree.value, es[after], at));
        return false;
      case Extracts(sentinel) =>
        assert es[..|es|] == es;
        ExtractFirst(es, |es|);
        if sentinel {
          tree := Some(Put(tree.value, [SENTINEL], []));
          finished := true;
        }
        return sentinel;
    }

    /** The loop over the entries of the archive. */
    method ExtractFirst(es: seq<Entry>, n: nat)
      requires n <= |es| && ExtractedAll(es[..n]).Some?
      modifies `tree
      ensures tree == ExtractedAll(es[..n])
    {
      tree := Some(EMPTY);
      assert es[..0] == [];
      for i := 0 to n
        invariant tree == ExtractedAll(es[..i])
      {
        PrefixExtracts(es, i + 1, n);
        assert es[..i + 1][..i] == es[..i];
        match es[i]
        case Dir(path) =>
          MakeDirs(path, |path|);
        case File(path, content) =>
          MakeDirs(path, |path| - 1);
          tree := Some(Put(tree.value, path, content));
      }
    }

    method MakeDirs(path: Path, n: nat)
      requires n <= |path| && tree.Some?
      modifies `tree
      ensures tree == Some(WithDirs(old(tree).value, path, n))
    {
      for i := 0 to n
        invariant tree == Some(WithDirs(old(tree).value, path, i))
      {
        tree := Some(tree.value.(dirs := tree.value.dirs + {path[..i + 1]}));
      }
    }
  }

  lemma {:induction false} PrefixExtracts(es: seq<Entry>, i: nat, n: nat)
    requires i <= n <= |es| && ExtractedAll(es[..n]).Some?
    ensures ExtractedAll(es[..i]).Some?
    decreases n
  {
    if i < n {
      assert es[..n][..n - 1] == es[..n - 1];
      PrefixExtracts(es, i, n - 1);
    }
  }

  // ----- Runs -----

  ghost predicate IsRun(es: seq<Entry>, ps: seq<Progress>)
    decreases |ps|, 0
  {
    ps == [] || (IsRun(es, ps[..|ps| - 1]) && Possible(After(es, ps[..|ps| - 1]), es, ps[|ps| - 1]))
  }

  ghost function After(es: seq<Entry>, ps: seq<Progress>): Dest
    requires IsRun(es, ps)
    decreases |ps|, 1
  {
    if ps == [] then NOTHING else Unpacked(After(es, ps[..|ps| - 1]), es, ps[|ps| - 1])
  }

  /** The tree is the whole archive, nothing else, and the sentinel. */
  predicate Whole(t: Tree, es: seq<Entry>) {
    ExtractedAll(es).Some? && t == Put(ExtractedAll(es).value, [SENTINEL], [])
  }

  /** The entry's path, or a parent of it, has a sentinel's name. */
  predicate BringsSentinel(e: Entry) {
    !e.Refused? && e.path != [] && IsSentinel(e.path[0])
  }

  /** No entry that the extraction comes to brings a sentinel. */
  ghost predicate NoSentinels(es: seq<Entry>) {
    forall i | 0 <= i < |es| && ExtractedAll(es[..i]).Some? :: !BringsSentinel(es[i])
  }

  /** No sentinel, and nothing below one. */
  ghost predicate Clean(t: Tree) {
    forall p | Exists(t, p) :: p != [] && !IsSentinel(p[0])
  }

  lemma CleanNotComplete(t: Tree)
    requires Clean(t)
    ensures !Complete(t)
  {
    assert [SENTINEL][0] == SENTINEL && [LEGACY][0] == LEGACY;
  }

  lemma {:induction false} DirsClean(t: Tree, p: Path, n: nat)
    requires Clean(t) && n <= |p| && (p != [] ==> !IsSentinel(p[0]))
    ensures Clean(WithDirs(t, p, n)) && WithDirs(t, p, n).files == t.files
  {
    if n > 0 {
      DirsClean(t, p, n - 1);
      assert p[..n][0] == p[0];
    }
  }

  lemma StopClean(t: Tree, e: Entry, s: Stop)
    requires Clean(t) && !BringsSentinel(e) && CanStop(t, e, s)
    ensures Clean(StoppedAt(t, e, s))
  {
    if !e.Refused? {
      DirsClean(t, e.path, s.made);
      var d, stopped := WithDirs(t, e.path, s.made), StoppedAt(t, e, s);
      forall p | Exists(stopped, p)
        ensures p != [] && !IsSentinel(p[0])
      {
        assert Exists(d, p) || p == e.path;
      }
    }
  }

  lemma EntryClean(t: Tree, e: Entry)
    requires Clean(t) && !BringsSentinel(e) && Extracted(t, e).Some?
    ensures Clean(Extracted(t, e).value)
  {
    if e.Dir? {
      DirsClean(t, e.path, |e.path|);
    } else {
      DirsClean(t, e.path, |e.path| - 1);
    }
  }

  lemma {:induction false} ExtractedClean(es: seq<Entry>, n: nat)
    requires n <= |es| && ExtractedAll(es[..n]).Some?
    requires forall i | 0 <= i < n && ExtractedAll(es[..i]).Some? :: !BringsSentinel(es[i])
    ensures Clean(ExtractedAll(es[..n]).value)
  {
    if n > 0 {
      assert es[..n][..n - 1] == es[..n - 1];
      ExtractedClean(es, n - 1);
      EntryClean(ExtractedAll(es[..n - 1]).value, es[n - 1]);
    }
  }

  /** What is on disk is clean, or it is the whole archive with the sentinel. */
  ghost predicate Sound(d: Dest, es: seq<Entry>) {
    d.tree.Some? ==> (if d.finished then Whole(d.tree.value, es) else Clean(d.tree.value))
  }

  ghost predicate FinishedStays(d: Dest) {
    d.finished ==> Trusted(d)
  }

  lemma UnpackedSound(d: Dest, es: seq<Entry>, p: Progress)
    requires NoSentinels(es) && Sound(d, es) && FinishedStays(d) && Possible(d, es, p)
    ensures Sound(Unpacked(d, es, p), es) && FinishedStays(Unpacked(d, es, p))
  {
    if !Trusted(d) {
      match p
      case Clears(left) => assert forall q | Exists(left, q) :: Exists(d.tree.value, q);
      case NoBlob =>
      case Stops(after, at) =>
        ExtractedClean(es, after);
        StopClean(ExtractedAll(es[..after]).value, es[after], at);
      case Extracts(_) =>
        assert es[..|es|] == es;
        ExtractedClean(es, |es|);
    }
  }

  lemma {:induction false} RunSound(es: seq<Entry>, ps: seq<Progress>)
    requires NoSentinels(es) && IsRun(es, ps)
    ensures Sound(After(es, ps), es) && FinishedStays(After(es, ps))
  {
    if ps != [] {
      RunSound(es, ps[..|ps| - 1]);
      UnpackedSound(After(es, ps[..|ps| - 1]), es, ps[|ps| - 1]);
    }
  }

  lemma {:induction false} FirstSentinel(es: seq<Entry>, n: nat) returns (i: nat)
    requires n <= |es|
    ensures i <= n && forall j | 0 <= j < i && ExtractedAll(es[..j]).Some? :: !BringsSentinel(es[j])
    ensures i < n ==> ExtractedAll(es[..i]).Some? && BringsSentinel(es[i])
  {
    if n == 0 {
      i := 0;
    } else {
      i := FirstSentinel(es, n - 1);
      if i == n - 1 && !(ExtractedAll(es[..i]).Some? && BringsSentinel(es[i])) {
        i := n;
      }
    }
  }

  /** In a clean tree, the first thing that the entry makes is a sentinel. */
  lemma FirstMade(t: Tree, e: Entry) returns (s: Stop)
    requires Clean(t) && BringsSentinel(e)
    ensures CanStop(t, e, s) && Complete(StoppedAt(t, e, s))
  {
    var p := e.path;
    assert p[..1] == [p[0]] && p[..1] !in t.files;
    if !e.Dir? && |p| == 1 {
      assert p == [p[0]] && p !in t.dirs && WithDirs(t, p, 0) == t;
      s := Stop(0, Some(0));
    } else {
      assert WithDirs(t, p, 1).dirs == t.dirs + {p[..1]};
      s := Stop(1, None);
    }
  }

  lemma OneProgress(es: seq<Entry>, p: Progress)
    requires Possible(NOTHING, es, p)
    ensures IsRun(es, [p]) && After(es, [p]) == Unpacked(NOTHING, es, p)
  {
    assert [p][..0] == [] && IsRun(es, []) && After(es, []) == NOTHING;
  }

  /** After every series of calls, failures and crashes, a tree that is taken for complete was
      finished by some call and is the whole archive, exactly when no entry that the extraction comes
      to has a sentinel's name as its path or as a parent of its path. */
  lemma SentinelExact(es: seq<Entry>)
    ensures NoSentinels(es) <==>
              forall ps | IsRun(es, ps) && Trusted(After(es, ps)) :: After(es, ps).finished && Whole(After(es, ps).tree.value, es)
  {
    if NoSentinels(es) {
      forall ps | IsRun(es, ps) && Trusted(After(es, ps))
        ensures After(es, ps).finished && Whole(After(es, ps).tree.value, es)
      {
        RunSound(es, ps);
        if !After(es, ps).finished {
          CleanNotComplete(After(es, ps).tree.value);
        }
      }
    } else {
      var i := FirstSentinel(es, |es|);
      ExtractedClean(es, i);
      var s := FirstMade(ExtractedAll(es[..i]).value, es[i]);
      var ps := [Stops(i, s)];
      OneProgress(es, Stops(i, s));
      assert IsRun(es, ps) && Trusted(After(es, ps)) && !After(es, ps).finished;
    }
  }

  /** A file of the sentinel's name that is half written is trusted after a crash, also when it is
      the last of the archive. */
  lemma PartialSentinelTrusted(content: Bytes) returns (es: seq<Entry>, ps: seq<Progress>)
    requires content != []
    ensures es == [File(["a"], content), File([SENTINEL], content)] && IsRun(es, ps)
    ensures Trusted(After(es, ps)) && !Whole(After(es, ps).tree.value, es)
  {
    es := [File(["a"], content), File([SENTINEL], content)];
    var p := Stops(1, Stop(0, Some(1)));
    ps := [p];
    OneFile(["a"], content);
    assert es[..1] == [es[0]];
    assert [SENTINEL] !in ExtractedAll(es[..1]).value.dirs;
    OneProgress(es, p);
    assert After(es, ps).tree.value.files[[SENTINEL]] == content[..1] != [];
  }

  lemma OneFile(p: Path, content: Bytes)
    requires |p| == 1
    ensures ExtractedAll([File(p, content)]) == Some(Tree(map[p := content], {}))
  {
    assert [File(p, content)][..0] == [];
    assert EMPTY.files[p := content] == map[p := content];
  }

  /** So is a directory of that name. */
  lemma SentinelDirTrusted(content: Bytes) returns (es: seq<Entry>, ps: seq<Progress>)
    ensures es == [File([SENTINEL, "x"], content), File(["b"], content)] && IsRun(es, ps)
    ensures Trusted(After(es, ps)) && !Whole(After(es, ps).tree.value, es)
  {
    es := [File([SENTINEL, "x"], content), File(["b"], content)];
    var p := Stops(0, Stop(1, None));
    ps := [p];
    assert es[..0] == [] && [SENTINEL, "x"][..1] == [SENTINEL];
    OneProgress(es, p);
    assert WithDirs(EMPTY, [SENTINEL, "x"], 0) == EMPTY;
    assert WithDirs(EMPTY, [SENTINEL, "x"], 1) == Tree(map[], {[SENTINEL]});
    assert After(es, ps).tree == Some(WithDirs(EMPTY, [SENTINEL, "x"], 1));
  }
}
