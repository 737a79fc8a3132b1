/** Publishing by commit and fast-forward push (internal/publish/git_direct.go over
    internal/publish/filesystem.go), with any number of publishers on one remote branch.

    Each publisher has its own worktree and runs one Publish at a time.  Commits form a graph
    in which a parent always has a smaller number; the remote branch is one of them, and a push
    moves it only to a commit that descends from it.
 */
module GitPublish {
  import Mirror
  import opened Wrappers

  // ----- Trees -----

  datatype Path = RegistryJson | Gitignore | Source(m: string, v: string) | ModuleBazel(m: string, v: string) | Metadata(m: string)

  datatype Content = Bytes(text: string) | Meta(fields: Mirror.Fields)

  type Tree = map<Path, Content>

  /** What MergeMetadata reads for module m. */
  function MetadataFile(t: Tree, m: string): Mirror.File {
    if Metadata(m) !in t then Mirror.Absent
    else match t[Metadata(m)]
         case Bytes(_) => Mirror.Malformed
         case Meta(fields) => Mirror.Doc(fields)
  }

  function Listed(t: Tree, m: string): set<string> {
    match MetadataFile(t, m)
    case Doc(fields) =>
      var vs := Mirror.VersionList(fields);
      if vs.Some? then set v | v in vs.value else {}
    case _ => {}
  }

  /** Metadata that is no document cannot be merged, and then the third write fails. */
  lemma MetadataExact(t: Tree, m: string)
    ensures Metadata(m) !in t ==> MetadataFile(t, m) == Mirror.Absent
    ensures Metadata(m) in t && t[Metadata(m)].Meta? ==> MetadataFile(t, m) == Mirror.Doc(t[Metadata(m)].fields)
    ensures Metadata(m) in t && t[Metadata(m)].Bytes? ==> forall v, up :: Mirror.Merged(MetadataFile(t, m), v, up) == None
  {
  }

  /** A version is listed when the module's metadata document says so. */
  lemma ListedExact(t: Tree, m: string, v: string)
    ensures v in Listed(t, m) <==>
              && Metadata(m) in t && t[Metadata(m)].Meta?
              && Mirror.Versions in t[Metadata(m)].fields && t[Metadata(m)].fields[Mirror.Versions].Strings?
              && v in t[Metadata(m)].fields[Mirror.Versions].items
  {
  }

  /** Nothing that was published in t is lost in t': no path, and no listed version. */
  ghost predicate Keeps(t: Tree, t': Tree) {
    && (forall p | p in t :: p in t')
    && (forall m :: Listed(t, m) <= Listed(t', m))
  }

  lemma KeepsTransitive(a: Tree, b: Tree, c: Tree)
    requires Keeps(a, b) && Keeps(b, c)
    ensures Keeps(a, c)
  {
    forall m
      ensures Listed(a, m) <= Listed(c, m)
    {
      assert Listed(a, m) <= Listed(b, m) <= Listed(c, m);
    }
  }

  // ----- One publish on a worktree -----

  /** A request that passed ValidateRequest; an empty MODULE.bazel is None. */
  datatype Request = Request(m: string, v: string, sourceJson: Content, moduleBazel: Option<Content>, up: Mirror.Upstream)

  /** A worktree and the paths git tracks in it. */
  datatype Checkout = Checkout(files: Tree, tracked: set<Path>)

  /** fetch and reset --hard: tracked files become the tip's, untracked ones stay unless the
      tip has their path. */
  function Synced(c: Checkout, tip: Tree): Checkout {
    Checkout((map p | p in c.files && p !in c.tracked :: c.files[p]) + tip, tip.Keys)
  }

  function WithSource(t: Tree, r: Request): Tree {
    t[Source(r.m, r.v) := r.sourceJson]
  }

  function WithModuleBazel(t: Tree, r: Request): Tree {
    if r.moduleBazel.Some? then t[ModuleBazel(r.m, r.v) := r.moduleBazel.value] else t
  }

  function MergedMeta(t: Tree, r: Request): Option<Mirror.Fields> {
    Mirror.Merged(MetadataFile(t, r.m), r.v, r.up)
  }

  /** FilesystemPublisher.Publish gets through `writes` of its three writes; the third one, the
      metadata merge, may also fail on what it finds. */
  function Written(t: Tree, r: Request, writes: nat): Tree {
    var t1 := if writes >= 1 then WithSource(t, r) else t;
    var t2 := if writes >= 2 then WithModuleBazel(t1, r) else t1;
    if writes >= 3 && MergedMeta(t2, r).Some? then t2[Metadata(r.m) := Meta(MergedMeta(t2, r).value)] else t2
  }

  predicate WriteOk(t: Tree, r: Request, writes: nat) {
    writes >= 3 && MergedMeta(t, r).Some?
  }

  /** `git add -- bazel_registry.json modules/<m> .gitignore`. */
  predicate Staged(p: Path, m: string) {
    p.RegistryJson? || p.Gitignore? || p.m == m
  }

  /** What is staged: the registry file, the ignore file, and what is under the module's directory. */
  lemma StagedExact(m: string, n: string, v: string)
    ensures Staged(RegistryJson, m) && Staged(Gitignore, m)
    ensures Staged(Source(n, v), m) <==> n == m
    ensures Staged(ModuleBazel(n, v), m) <==> n == m
    ensures Staged(Metadata(n), m) <==> n == m
  {
  }

  /** The tree of the commit: the base with the staged paths as the worktree has them. */
  function CommitTree(base: Tree, files: Tree, m: string): Tree {
    base + map p | p in files && Staged(p, m) :: files[p]
  }

  /** The worktree of a publisher as the code changes it. */
  class Worktree {
    var files: Tree
    var tracked: set<Path>

    ghost function State(): Checkout
      reads this
    {
      Checkout(files, tracked)
    }

    method SyncToRemoteTip(tip: Tree)
      modifies this
      ensures State() == Synced(old(State()), tip)
      ensures tracked == tip.Keys && forall p | p in tip :: p in files && files[p] == tip[p]
      ensures forall p :: p in files <==> p in tip || (p in old(files) && p !in old(tracked))
      ensures forall p | p in files && p !in tip :: files[p] == old(files)[p]
    {
      var kept := map p | p in files && p !in tracked :: files[p];
      files := kept + tip;
      tracked := tip.Keys;
    }

    method WriteFiles(r: Request) returns (ok: bool)
      modifies this
      ensures tracked == old(tracked)
      ensures ok <==> WriteOk(old(files), r, 3)
      ensures files == Written(old(files), r, 3)
    {
      files := files[Source(r.m, r.v) := r.sourceJson];
      if r.moduleBazel.Some? {
        files := files[ModuleBazel(r.m, r.v) := r.moduleBazel.value];
      }
      var merged := Mirror.Merged(MetadataFile(files, r.m), r.v, r.up);
      if merged.None? {
        return false;
      }
      files := files[Metadata(r.m) := Meta(merged.value)];
      return true;
    }

    /** stage and commit: None when there is nothing to commit. */
    method StageAndCommit(base: Tree, m: string) returns (tree: Option<Tree>)
      modifies this
      ensures files == old(files)
      ensures tracked == old(tracked) + (set p | p in files && Staged(p, m))
      ensures tree == if CommitTree(base, files, m) == base then None else Some(CommitTree(base, files, m))
    {
      var staged := map p | p in files && Staged(p, m) :: files[p];
      tracked := tracked + (set p | p in files && Staged(p, m));
      tree := if base + staged == base then None else Some(base + staged);
    }
  }

  lemma SyncKeepsTip(c: Checkout, tip: Tree)
    ensures Keeps(tip, Synced(c, tip).files)
    ensures forall p | p in tip :: Synced(c, tip).files[p] == tip[p]
  {
    forall m
      ensures Listed(tip, m) <= Listed(Synced(c, tip).files, m)
    {
      if Metadata(m) in tip {
        assert MetadataFile(Synced(c, tip).files, m) == MetadataFile(tip, m);
      }
    }
  }

  lemma WrittenKeeps(t: Tree, r: Request, writes: nat)
    ensures Keeps(t, Written(t, r, writes))
    ensures WriteOk(t, r, writes) ==> PublishedIn(Written(t, r, writes), r)
  {
    var t' := Written(t, r, writes);
    var t2 := WithModuleBazel(WithSource(t, r), r);
    assert MetadataFile(t2, r.m) == MetadataFile(t, r.m);
    forall m
      ensures Listed(t, m) <= Listed(t', m)
    {
      if m == r.m && WriteOk(t, r, writes) {
        MergeLists(t, r);
      } else {
        assert MetadataFile(t', m) == MetadataFile(t, m);
      }
    }
    if WriteOk(t, r, writes) {
      MergeLists(t, r);
    }
  }

  lemma MergeLists(t: Tree, r: Request)
    requires MergedMeta(t, r).Some?
    ensures Mirror.VersionList(MergedMeta(t, r).value).Some?
    ensures (set v | v in Mirror.VersionList(MergedMeta(t, r).value).value) == Listed(t, r.m) + {r.v}
  {
    Mirror.MergeEffect(MetadataFile(t, r.m), r.v, r.up, Mirror.Versions);
  }

  /** What a receipt promises of a tree: the module version's files and its entry in the list. */
  ghost predicate PublishedIn(t: Tree, r: Request) {
    && Source(r.m, r.v) in t && t[Source(r.m, r.v)] == r.sourceJson
    && (r.moduleBazel.Some? ==> ModuleBazel(r.m, r.v) in t && t[ModuleBazel(r.m, r.v)] == r.moduleBazel.value)
    && r.v in Listed(t, r.m)
  }

  /** The same promise for any later tree, whose files may have been published again since. */
  ghost predicate StillThere(t: Tree, r: Request) {
    && Source(r.m, r.v) in t
    && (r.moduleBazel.Some? ==> ModuleBazel(r.m, r.v) in t)
    && r.v in Listed(t, r.m)
  }

  lemma CommitKeeps(base: Tree, files: Tree, r: Request)
    requires Keeps(base, files)
    ensures Keeps(base, CommitTree(base, files, r.m))
    ensures PublishedIn(files, r) ==> PublishedIn(CommitTree(base, files, r.m), r)
  {
    var t := CommitTree(base, files, r.m);
    forall m
      ensures Listed(base, m) <= Listed(t, m)
    {
      if m == r.m {
        assert Metadata(m) in base ==> Metadata(m) in files;
        assert MetadataFile(t, m) == MetadataFile(files, m);
      } else {
        assert MetadataFile(t, m) == MetadataFile(base, m);
      }
    }
    if PublishedIn(files, r) {
      assert MetadataFile(t, r.m) == MetadataFile(files, r.m);
    }
  }

  /** What a request asks for is what t has, whoever published it and however long ago. */
  ghost predicate AlreadyPublished(t: Tree, r: Request) {
    && Source(r.m, r.v) in t && t[Source(r.m, r.v)] == r.sourceJson
    && (r.moduleBazel.Some? ==> ModuleBazel(r.m, r.v) in t && t[ModuleBazel(r.m, r.v)] == r.moduleBazel.value)
    && Mirror.AlreadyMerged(MetadataFile(t, r.m), r.v, r.up)
  }

  /** Exactly when the three writes leave a tree as it is. */
  lemma UnchangedExact(t: Tree, r: Request)
    requires WriteOk(t, r, 3)
    ensures CommitTree(t, Written(t, r, 3), r.m) == t <==> AlreadyPublished(t, r)
  {
    var w := Written(t, r, 3);
    var f := MetadataFile(t, r.m);
    assert MetadataFile(WithModuleBazel(WithSource(t, r), r), r.m) == f;
    Mirror.NothingToMergeExact(f, r.v, r.up);
    assert w[Metadata(r.m)] == Meta(MergedMeta(t, r).value);
    assert CommitTree(t, w, r.m) == w by {
      assert forall p | p in w && !Staged(p, r.m) :: p in t && t[p] == w[p];
    }
    if AlreadyPublished(t, r) {
      assert w == t;
    }
    if w == t {
      assert f == Mirror.Doc(MergedMeta(t, r).value);
    }
  }

  /** In particular, publishing the same request again right after it was published. */
  lemma RepublishHasNothingToCommit(tip: Tree, r: Request)
    requires WriteOk(tip, r, 3)
    ensures var t := Written(tip, r, 3); WriteOk(t, r, 3) && CommitTree(t, Written(t, r, 3), r.m) == t
  {
    var t := Written(tip, r, 3);
    var f := MetadataFile(tip, r.m);
    assert MetadataFile(WithModuleBazel(WithSource(tip, r), r), r.m) == f;
    Mirror.MergeIdempotent(f, r.v, r.up);
    assert MetadataFile(t, r.m) == Mirror.Doc(MergedMeta(tip, r).value);
    Mirror.NothingToMergeExact(MetadataFile(t, r.m), r.v, r.up);
    UnchangedExact(t, r);
  }

  /** A path that the writes of a request go to. */
  predicate IsWritten(r: Request, p: Path) {
    p == Source(r.m, r.v) || (r.moduleBazel.Some? && p == ModuleBazel(r.m, r.v)) || p == Metadata(r.m)
  }

  /** What a commit holds beyond the tip, exactly: the files of the request, and those that earlier
      attempts left untracked in the worktree at a staged path, with the content they had. */
  lemma LeftoversLand(c: Checkout, tip: Tree, r: Request, p: Path)
    requires WriteOk(Synced(c, tip).files, r, 3)
    ensures var t := CommitTree(tip, Written(Synced(c, tip).files, r, 3), r.m);
            && (p in t <==> p in tip || IsWritten(r, p) || (p in c.files && p !in c.tracked && Staged(p, r.m)))
            && (p in t && !IsWritten(r, p) ==> t[p] == if p in tip then tip[p] else c.files[p])
  {
  }

  /** So a leftover of the module at any version lands in the next commit for that module. */
  lemma SomeLeftoverLands(m: string, v: string, other: string, content: Content)
    requires v != other
    ensures var c, r := Checkout(map[Source(m, other) := content], {}), Request(m, v, content, None, Mirror.NoUpstream);
            && WriteOk(Synced(c, map[]).files, r, 3)
            && Source(m, other) in CommitTree(map[], Written(Synced(c, map[]).files, r, 3), m)
  {
  }

  /** Exactly when `git commit` finds nothing to commit and the Publish ends in an error, for whatever
      is in the worktree: the tip has what is asked for, and every leftover at a staged path is one of
      its paths, so that the reset has replaced it. */
  lemma NothingToCommitExact(c: Checkout, tip: Tree, r: Request)
    requires WriteOk(Synced(c, tip).files, r, 3)
    ensures CommitTree(tip, Written(Synced(c, tip).files, r, 3), r.m) == tip <==>
              AlreadyPublished(tip, r) && forall p | p in c.files && p !in c.tracked && Staged(p, r.m) :: p in tip
  {
    if p :| p in c.files && p !in c.tracked && Staged(p, r.m) && p !in tip {
      LeftoversLand(c, tip, r, p);
    } else if Metadata(r.m) in tip {
      assert MetadataFile(Synced(c, tip).files, r.m) == MetadataFile(tip, r.m);
      AsOnTheTip(c, tip, r);
      UnchangedExact(tip, r);
    } else {
      LeftoversLand(c, tip, r, Metadata(r.m));
    }
  }

  /** Leftovers that the reset has replaced do not show. */
  lemma AsOnTheTip(c: Checkout, tip: Tree, r: Request)
    requires WriteOk(Synced(c, tip).files, r, 3) && MetadataFile(Synced(c, tip).files, r.m) == MetadataFile(tip, r.m)
    requires forall p | p in c.files && p !in c.tracked && Staged(p, r.m) :: p in tip
    ensures CommitTree(tip, Written(Synced(c, tip).files, r, 3), r.m) == CommitTree(tip, Written(tip, r, 3), r.m)
  {
    var u, w := Written(Synced(c, tip).files, r, 3), Written(tip, r, 3);
    forall p | Staged(p, r.m)
      ensures p in u <==> p in w
      ensures p in w ==> u[p] == w[p]
    {
      WrittenAt(Synced(c, tip).files, r, p);
      WrittenAt(tip, r, p);
    }
    SameStaged(tip, u, w, r.m);
  }

  lemma SameStaged(base: Tree, u: Tree, w: Tree, m: string)
    requires forall p | Staged(p, m) :: (p in u <==> p in w) && (p in w ==> u[p] == w[p])
    ensures CommitTree(base, u, m) == CommitTree(base, w, m)
  {
    assert (map p | p in u && Staged(p, m) :: u[p]) == (map p | p in w && Staged(p, m) :: w[p]);
  }

  lemma WrittenAt(t: Tree, r: Request, p: Path)
    requires WriteOk(t, r, 3)
    ensures p in Written(t, r, 3) <==> p in t || IsWritten(r, p)
    ensures p in Written(t, r, 3) ==>
              Written(t, r, 3)[p] == if p == Metadata(r.m) then Meta(MergedMeta(t, r).value)
                                     else if p == Source(r.m, r.v) then r.sourceJson
                                     else if r.moduleBazel.Some? && p == ModuleBazel(r.m, r.v) then r.moduleBazel.value
                                     else t[p]
  {
    assert MetadataFile(WithModuleBazel(WithSource(t, r), r), r.m) == MetadataFile(t, r.m);
  }

  /** Otherwise the leftover is what is committed: a request whose content has been published for long
      goes through once more. */
  lemma LeftoverIsCommitted(c: Checkout, tip: Tree, r: Request, p: Path)
    requires WriteOk(Synced(c, tip).files, r, 3) && AlreadyPublished(tip, r)
    requires p in c.files && p !in c.tracked && Staged(p, r.m) && p !in tip
    ensures var t := CommitTree(tip, Written(Synced(c, tip).files, r, 3), r.m); t != tip && p in t
  {
    LeftoversLand(c, tip, r, p);
  }

  // ----- The retry loop -----

  datatype PushOutcome = Accepted | NonFastForward | PushError

  datatype Outcome = Receipt | Failure

  /** Publish: at most two attempts, and a second one only after a non-fast-forward push. */
  method PublishLoop(prepared: nat -> bool, push: nat -> PushOutcome) returns (attempts: nat, out: Outcome)
    ensures 1 <= attempts <= 2
    ensures attempts == 2 <==> prepared(0) && push(0).NonFastForward?
    ensures out.Receipt? <==> prepared(attempts - 1) && push(attempts - 1).Accepted?
  {
    for attempt := 0 to 2
      invariant attempt == 1 ==> prepared(0) && push(0).NonFastForward?
      invariant attempt <= 1
    {
      if !prepared(attempt) {
        return attempt + 1, Failure;
      }
      match push(attempt)
      case Accepted => return attempt + 1, Receipt;
      case PushError => return attempt + 1, Failure;
      case NonFastForward =>
        if attempt == 1 {
          return attempt + 1, Failure;
        }
    }
    assert false;
  }

  // ----- Publishers and the remote -----

  datatype Commit = Commit(parent: nat, tree: Tree)

  datatype Phase = Idle | Syncing | Ready | Filled | Committed(sha: nat)

  /** `fetched` are the tips this Publish has synced to, one per attempt. */
  datatype Publisher = Publisher(phase: Phase, work: Checkout, req: Request, fetched: seq<nat>)

  datatype Receipted = Receipted(req: Request, sha: nat)

  datatype World = World(commits: seq<Commit>, tip: nat, pubs: seq<Publisher>, receipts: seq<Receipted>)

  /** Failed commands leave their effects so far; a push may also reach the remote while its
      success is lost on the way back. */
  datatype Step =
    | Begin(i: nat, req: Request)
    | Sync(i: nat, ok: bool)
    | Write(i: nat, writes: nat)
    | MakeCommit(i: nat, ok: bool)
    | Push(i: nat, ok: bool, acknowledged: bool)

  /** a is b or an ancestor of b. */
  ghost predicate Ancestor(cs: seq<Commit>, a: nat, b: nat)
    decreases b
  {
    a == b || (b < |cs| && cs[b].parent < b && Ancestor(cs, a, cs[b].parent))
  }

  predicate Enabled(s: World, step: Step) {
    && step.i < |s.pubs|
    && match step
       case Begin(i, _) => s.pubs[i].phase.Idle?
       case Sync(i, _) => s.pubs[i].phase.Syncing?
       case Write(i, _) => s.pubs[i].phase.Ready?
       case MakeCommit(i, _) => s.pubs[i].phase.Filled?
       case Push(i, _, _) => s.pubs[i].phase.Committed?
  }

  function With(s: World, i: nat, p: Publisher): World
    requires i < |s.pubs|
  {
    s.(pubs := s.pubs[i := p])
  }

  function SyncStep(s: World, i: nat, ok: bool): World
    requires i < |s.pubs| && s.tip < |s.commits|
  {
    var p := s.pubs[i];
    With(s, i, if ok then p.(phase := Ready, work := Synced(p.work, s.commits[s.tip].tree), fetched := p.fetched + [s.tip])
               else p.(phase := Idle))
  }

  function WriteStep(s: World, i: nat, writes: nat): World
    requires i < |s.pubs|
  {
    var p := s.pubs[i];
    var files := Written(p.work.files, p.req, writes);
    With(s, i, p.(phase := if WriteOk(p.work.files, p.req, writes) then Filled else Idle, work := p.work.(files := files)))
  }

  function CommitStep(s: World, i: nat, ok: bool): World
    requires i < |s.pubs| && s.pubs[i].fetched != [] && s.pubs[i].fetched[|s.pubs[i].fetched| - 1] < |s.commits|
  {
    var p := s.pubs[i];
    var base := p.fetched[|p.fetched| - 1];
    var tree := CommitTree(s.commits[base].tree, p.work.files, p.req.m);
    var work := p.work.(tracked := p.work.tracked + set q | q in p.work.files && Staged(q, p.req.m));
    if ok && tree != s.commits[base].tree then
      With(s, i, p.(phase := Committed(|s.commits|), work := work)).(commits := s.commits + [Commit(base, tree)])
    else With(s, i, p.(phase := Idle, work := work))
  }

  ghost function PushStep(s: World, i: nat, ok: bool, acknowledged: bool): World
    requires i < |s.pubs| && s.pubs[i].phase.Committed?
  {
    var p := s.pubs[i];
    var sha := p.phase.sha;
    if !ok then With(s, i, p.(phase := Idle))
    else if Ancestor(s.commits, s.tip, sha) then
      var s1 := With(s, i, p.(phase := Idle)).(tip := sha);
      if acknowledged then s1.(receipts := s.receipts + [Receipted(p.req, sha)]) else s1
    else With(s, i, p.(phase := if |p.fetched| == 1 then Syncing else Idle))
  }

  ghost function After(s: World, step: Step): World
    requires Enabled(s, step) && Inv(s)
  {
    match step
    case Begin(i, req) => With(s, i, s.pubs[i].(phase := Syncing, req := req, fetched := []))
    case Sync(i, ok) => SyncStep(s, i, ok)
    case Write(i, writes) => WriteStep(s, i, writes)
    case MakeCommit(i, ok) => CommitStep(s, i, ok)
    case Push(i, ok, ack) => PushStep(s, i, ok, ack)
  }

  // ----- Invariant -----

  ghost predicate GraphInv(cs: seq<Commit>) {
    forall c | 0 < c < |cs| :: cs[c].parent < c && Keeps(cs[cs[c].parent].tree, cs[c].tree)
  }

  /** What the code's current Publish call has built, phase by phase. */
  ghost predicate PublisherInv(p: Publisher, cs: seq<Commit>, tip: nat) {
    && |p.fetched| <= 2
    && (p.phase.Syncing? ==> |p.fetched| <= 1)
    && (p.phase.Ready? || p.phase.Filled? || p.phase.Committed? ==> p.fetched != [])
    && (forall k | 0 <= k < |p.fetched| :: p.fetched[k] < |cs| && Ancestor(cs, p.fetched[k], tip))
    && (p.phase.Ready? || p.phase.Filled? ==> Keeps(cs[p.fetched[|p.fetched| - 1]].tree, p.work.files))
    && (p.phase.Filled? ==> PublishedIn(p.work.files, p.req))
    && (p.phase.Committed? ==>
          && 0 < p.phase.sha < |cs|
          && cs[p.phase.sha].parent == p.fetched[|p.fetched| - 1]
          && PublishedIn(cs[p.phase.sha].tree, p.req))
  }

  ghost predicate ReceiptInv(r: Receipted, cs: seq<Commit>, tip: nat) {
    r.sha < |cs| && Ancestor(cs, r.sha, tip) && PublishedIn(cs[r.sha].tree, r.req)
  }

  ghost predicate Inv(s: World) {
    && s.tip < |s.commits|
    && GraphInv(s.commits)
    && (forall i | 0 <= i < |s.pubs| :: PublisherInv(s.pubs[i], s.commits, s.tip))
    && (forall r | r in s.receipts :: ReceiptInv(r, s.commits, s.tip))
  }

  lemma {:induction false} AncestorTransitive(cs: seq<Commit>, a: nat, b: nat, c: nat)
    requires Ancestor(cs, a, b) && Ancestor(cs, b, c)
    ensures Ancestor(cs, a, c)
    decreases c
  {
    if b != c {
      AncestorTransitive(cs, a, b, cs[c].parent);
    }
  }

  lemma {:induction false} AncestorAppend(cs: seq<Commit>, c: Commit, a: nat, b: nat)
    requires Ancestor(cs, a, b)
    ensures Ancestor(cs + [c], a, b)
    decreases b
  {
    if a != b {
      AncestorAppend(cs, c, a, cs[b].parent);
    }
  }

  /** Along any line of descent nothing published is lost. */
  lemma {:induction false} DescendantKeeps(cs: seq<Commit>, a: nat, b: nat)
    requires GraphInv(cs) && a < |cs| && b < |cs| && Ancestor(cs, a, b)
    ensures Keeps(cs[a].tree, cs[b].tree)
    decreases b
  {
    if a != b {
      DescendantKeeps(cs, a, cs[b].parent);
      KeepsTransitive(cs[a].tree, cs[cs[b].parent].tree, cs[b].tree);
    }
  }

  /** Moving the tip down a line of descent, and adding a commit, keep what is known of every
      publisher and receipt. */
  lemma TipMoves(p: Publisher, cs: seq<Commit>, tip: nat, tip': nat)
    requires PublisherInv(p, cs, tip) && Ancestor(cs, tip, tip')
    ensures PublisherInv(p, cs, tip')
  {
    forall k | 0 <= k < |p.fetched|
      ensures Ancestor(cs, p.fetched[k], tip')
    {
      AncestorTransitive(cs, p.fetched[k], tip, tip');
    }
  }

  lemma CommitAdded(p: Publisher, cs: seq<Commit>, c: Commit, tip: nat)
    requires PublisherInv(p, cs, tip)
    ensures PublisherInv(p, cs + [c], tip)
  {
    forall k | 0 <= k < |p.fetched|
      ensures Ancestor(cs + [c], p.fetched[k], tip)
    {
      AncestorAppend(cs, c, p.fetched[k], tip);
    }
  }

  /** One publisher changes, and perhaps the graph grows. */
  lemma OnePublisher(s: World, i: nat, p: Publisher, cs: seq<Commit>)
    requires i < |s.pubs| && s.tip < |cs| && GraphInv(cs)
    requires forall j | 0 <= j < |s.pubs| :: PublisherInv(s.pubs[j], cs, s.tip)
    requires forall r | r in s.receipts :: ReceiptInv(r, cs, s.tip)
    requires PublisherInv(p, cs, s.tip)
    ensures Inv(With(s, i, p).(commits := cs))
  {
  }

  lemma BeginKeeps(s: World, i: nat, req: Request)
    requires Inv(s) && Enabled(s, Begin(i, req))
    ensures Inv(After(s, Begin(i, req)))
  {
    OnePublisher(s, i, s.pubs[i].(phase := Syncing, req := req, fetched := []), s.commits);
  }

  lemma SyncStepKeeps(s: World, i: nat, ok: bool)
    requires Inv(s) && Enabled(s, Sync(i, ok))
    ensures Inv(After(s, Sync(i, ok)))
  {
    var p, tree := s.pubs[i], s.commits[s.tip].tree;
    assert PublisherInv(p, s.commits, s.tip);
    SyncKeepsTip(p.work, tree);
    if ok {
      OnePublisher(s, i, p.(phase := Ready, work := Synced(p.work, tree), fetched := p.fetched + [s.tip]), s.commits);
    } else {
      OnePublisher(s, i, p.(phase := Idle), s.commits);
    }
  }

  lemma WriteStepKeeps(s: World, i: nat, writes: nat)
    requires Inv(s) && Enabled(s, Write(i, writes))
    ensures Inv(After(s, Write(i, writes)))
  {
    var p := s.pubs[i];
    assert PublisherInv(p, s.commits, s.tip);
    var files := Written(p.work.files, p.req, writes);
    WrittenKeeps(p.work.files, p.req, writes);
    KeepsTransitive(s.commits[p.fetched[|p.fetched| - 1]].tree, p.work.files, files);
    OnePublisher(s, i, p.(phase := if WriteOk(p.work.files, p.req, writes) then Filled else Idle, work := p.work.(files := files)), s.commits);
  }

  lemma GraphGrows(cs: seq<Commit>, base: nat, tree: Tree)
    requires GraphInv(cs) && base < |cs| && Keeps(cs[base].tree, tree)
    ensures GraphInv(cs + [Commit(base, tree)])
  {
    var ds := cs + [Commit(base, tree)];
    forall c | 0 < c < |ds|
      ensures ds[c].parent < c && Keeps(ds[ds[c].parent].tree, ds[c].tree)
    {
      if c < |cs| {
        assert ds[c] == cs[c] && cs[c].parent < c;
      }
    }
  }

  lemma CommittedInv(p: Publisher, cs: seq<Commit>, c: Commit, tip: nat, work: Checkout)
    requires PublisherInv(p.(phase := Idle), cs + [c], tip) && cs != []
    requires p.fetched != [] && c.parent == p.fetched[|p.fetched| - 1] && PublishedIn(c.tree, p.req)
    ensures PublisherInv(p.(phase := Committed(|cs|), work := work), cs + [c], tip)
  {
  }

  lemma CommitterKeeps(p: Publisher, cs: seq<Commit>, tip: nat, work: Checkout)
    requires GraphInv(cs) && PublisherInv(p, cs, tip) && p.phase.Filled?
    ensures var base := p.fetched[|p.fetched| - 1];
            var ds := cs + [Commit(base, CommitTree(cs[base].tree, p.work.files, p.req.m))];
            GraphInv(ds) && PublisherInv(p.(phase := Committed(|cs|), work := work), ds, tip)
  {
    var base := p.fetched[|p.fetched| - 1];
    var tree := CommitTree(cs[base].tree, p.work.files, p.req.m);
    CommitKeeps(cs[base].tree, p.work.files, p.req);
    GraphGrows(cs, base, tree);
    CommitAdded(p.(phase := Idle), cs, Commit(base, tree), tip);
    CommittedInv(p, cs, Commit(base, tree), tip, work);
  }

  lemma OthersSeeCommit(s: World, c: Commit)
    requires Inv(s)
    ensures forall j | 0 <= j < |s.pubs| :: PublisherInv(s.pubs[j], s.commits + [c], s.tip)
    ensures forall r | r in s.receipts :: ReceiptInv(r, s.commits + [c], s.tip)
  {
    forall j | 0 <= j < |s.pubs|
      ensures PublisherInv(s.pubs[j], s.commits + [c], s.tip)
    {
      CommitAdded(s.pubs[j], s.commits, c, s.tip);
    }
    forall r | r in s.receipts
      ensures ReceiptInv(r, s.commits + [c], s.tip)
    {
      AncestorAppend(s.commits, c, r.sha, s.tip);
    }
  }

  lemma CommitStepKeeps(s: World, i: nat, ok: bool)
    requires Inv(s) && Enabled(s, MakeCommit(i, ok))
    ensures Inv(After(s, MakeCommit(i, ok)))
  {
    var p := s.pubs[i];
    var base := p.fetched[|p.fetched| - 1];
    assert PublisherInv(p, s.commits, s.tip);
    var tree := CommitTree(s.commits[base].tree, p.work.files, p.req.m);
    var work := p.work.(tracked := p.work.tracked + set q | q in p.work.files && Staged(q, p.req.m));
    if ok && tree != s.commits[base].tree {
      CommitterKeeps(p, s.commits, s.tip, work);
      OthersSeeCommit(s, Commit(base, tree));
      OnePublisher(s, i, p.(phase := Committed(|s.commits|), work := work), s.commits + [Commit(base, tree)]);
    } else {
      OnePublisher(s, i, p.(phase := Idle, work := work), s.commits);
    }
  }

  lemma PushStepKeeps(s: World, i: nat, ok: bool, ack: bool)
    requires Inv(s) && Enabled(s, Push(i, ok, ack))
    ensures Inv(After(s, Push(i, ok, ack)))
    ensures After(s, Push(i, ok, ack)).commits == s.commits
    ensures Ancestor(s.commits, s.tip, After(s, Push(i, ok, ack)).tip)
  {
    var s', p := After(s, Push(i, ok, ack)), s.pubs[i];
    assert PublisherInv(p, s.commits, s.tip);
    forall j | 0 <= j < |s'.pubs|
      ensures PublisherInv(s'.pubs[j], s'.commits, s'.tip)
    {
      TipMoves(s.pubs[j], s.commits, s.tip, s'.tip);
    }
    forall r | r in s'.receipts
      ensures ReceiptInv(r, s'.commits, s'.tip)
    {
      if r in s.receipts {
        AncestorTransitive(s.commits, r.sha, s.tip, s'.tip);
      }
    }
  }

  lemma StepKeeps(s: World, step: Step)
    requires Inv(s) && Enabled(s, step)
    ensures Inv(After(s, step))
    ensures s.commits <= After(s, step).commits
    ensures Ancestor(After(s, step).commits, s.tip, After(s, step).tip)
  {
    match step
    case Begin(i, req) => BeginKeeps(s, i, req);
    case Sync(i, ok) => SyncStepKeeps(s, i, ok);
    case Write(i, writes) => WriteStepKeeps(s, i, writes);
    case MakeCommit(i, ok) => CommitStepKeeps(s, i, ok);
    case Push(i, ok, ack) => PushStepKeeps(s, i, ok, ack);
  }

  ghost predicate Run(s: World, steps: seq<Step>)
    requires Inv(s)
    decreases |steps|
  {
    steps == [] || (Enabled(s, steps[0]) && (StepKeeps(s, steps[0]); Run(After(s, steps[0]), steps[1..])))
  }

  ghost function Execute(s: World, steps: seq<Step>): World
    requires Inv(s) && Run(s, steps)
    decreases |steps|
  {
    if steps == [] then s else StepKeeps(s, steps[0]); Execute(After(s, steps[0]), steps[1..])
  }

  // ----- Main results -----

  lemma {:induction false} PrefixAncestor(cs: seq<Commit>, ds: seq<Commit>, a: nat, b: nat)
    requires cs <= ds && Ancestor(cs, a, b)
    ensures Ancestor(ds, a, b)
    decreases b
  {
    if a != b {
      PrefixAncestor(cs, ds, a, cs[b].parent);
    }
  }

  /** Whatever the publishers do, the branch only moves forward, and no path and no listed
      version that was ever in its tip is missing from a later tip. */
  lemma {:induction false} NothingLost(s: World, steps: seq<Step>)
    requires Inv(s) && Run(s, steps)
    ensures var t := Execute(s, steps);
            && Inv(t)
            && s.commits <= t.commits
            && Ancestor(t.commits, s.tip, t.tip)
            && Keeps(s.commits[s.tip].tree, t.commits[t.tip].tree)
    decreases |steps|
  {
    if steps != [] {
      var s1 := After(s, steps[0]);
      StepKeeps(s, steps[0]);
      NothingLost(s1, steps[1..]);
      var t := Execute(s1, steps[1..]);
      PrefixAncestor(s1.commits, t.commits, s.tip, s1.tip);
      AncestorTransitive(t.commits, s.tip, s1.tip, t.tip);
      DescendantKeeps(t.commits, s.tip, t.tip);
    }
  }

  /** A branch nobody has published to yet, seen by n publishers with arbitrary worktrees. */
  ghost predicate Fresh(s: World) {
    && |s.commits| == 1 && s.tip == 0 && s.receipts == []
    && forall i | 0 <= i < |s.pubs| :: s.pubs[i].phase.Idle? && s.pubs[i].fetched == []
  }

  lemma FreshInv(s: World)
    requires Fresh(s)
    ensures Inv(s)
  {
  }

  /** Every receipt that has been given out names a commit that is still in the branch's
      history, that published exactly what was asked, and whose module version is still in the
      tip and still listed. */
  lemma ReceiptsHold(s: World, steps: seq<Step>, r: Receipted)
    requires Fresh(s) && (FreshInv(s); Run(s, steps)) && r in Execute(s, steps).receipts
    ensures var t := Execute(s, steps);
            && r.sha < |t.commits| && t.tip < |t.commits|
            && Ancestor(t.commits, r.sha, t.tip)
            && PublishedIn(t.commits[r.sha].tree, r.req)
            && StillThere(t.commits[t.tip].tree, r.req)
  {
    NothingLost(s, steps);
    var t := Execute(s, steps);
    DescendantKeeps(t.commits, r.sha, t.tip);
    assert Listed(t.commits[r.sha].tree, r.req.m) <= Listed(t.commits[t.tip].tree, r.req.m);
  }

  /** Each attempt commits on the tip it has just fetched, there are at most two attempts, and
      a push is turned down only when the branch has moved past that tip in the meantime. */
  lemma AttemptsOnFreshTips(s: World, i: nat, ok: bool, ack: bool)
    requires Inv(s) && Enabled(s, Push(i, ok, ack))
    ensures var p := s.pubs[i];
            && 1 <= |p.fetched| <= 2
            && s.commits[p.phase.sha].parent == p.fetched[|p.fetched| - 1]
            && Ancestor(s.commits, p.fetched[|p.fetched| - 1], s.tip)
            && (s.tip == p.fetched[|p.fetched| - 1] ==> Ancestor(s.commits, s.tip, p.phase.sha))
            && (After(s, Push(i, ok, ack)).pubs[i].phase.Syncing? ==>
                  |p.fetched| == 1 && s.tip != p.fetched[0] && Ancestor(s.commits, p.fetched[0], s.tip))
  {
    FreshAttempt(s.pubs[i], s.commits, s.tip);
  }

  lemma FreshAttempt(p: Publisher, cs: seq<Commit>, tip: nat)
    requires GraphInv(cs) && PublisherInv(p, cs, tip) && p.phase.Committed?
    ensures Ancestor(cs, p.fetched[|p.fetched| - 1], tip)
    ensures Ancestor(cs, p.fetched[|p.fetched| - 1], p.phase.sha)
  {
    assert Ancestor(cs, p.fetched[|p.fetched| - 1], cs[p.phase.sha].parent);
  }
}
