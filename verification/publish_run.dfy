/** What each step of a publisher does to the remote branch, and that publishing gets done
    (internal/publish/git_direct.go). */
module PublishRun {
  import opened GitPublish
  import opened Wrappers

  /** Publisher i changes, and neither the others nor the remote do. */
  ghost predicate OnlyPublisher(s: World, t: World, i: nat) {
    && |t.pubs| == |s.pubs| && (forall j | 0 <= j < |s.pubs| && j != i :: t.pubs[j] == s.pubs[j])
    && t.tip == s.tip && t.receipts == s.receipts
  }

  lemma BeginExact(s: World, i: nat, req: Request)
    requires Inv(s) && i < |s.pubs|
    ensures Enabled(s, Begin(i, req)) <==> s.pubs[i].phase == Idle
    ensures Enabled(s, Begin(i, req)) ==>
              var t := After(s, Begin(i, req));
              && OnlyPublisher(s, t, i) && t.commits == s.commits
              && t.pubs[i] == Publisher(Syncing, s.pubs[i].work, req, [])
  {
  }

  /** The worktree becomes the tip of this moment, apart from untracked paths. */
  lemma SyncExact(s: World, i: nat, ok: bool)
    requires Inv(s) && Enabled(s, Sync(i, ok))
    ensures var t, p, tree := After(s, Sync(i, ok)), s.pubs[i], s.commits[s.tip].tree;
            && OnlyPublisher(s, t, i) && t.commits == s.commits && t.pubs[i].req == p.req
            && if ok then
                 && t.pubs[i].phase == Ready && t.pubs[i].fetched == p.fetched + [s.tip] && t.pubs[i].work.tracked == tree.Keys
                 && forall x :: (x in t.pubs[i].work.files <==> x in tree || (x in p.work.files && x !in p.work.tracked))
                                && (x in t.pubs[i].work.files ==> t.pubs[i].work.files[x] == if x in tree then tree[x] else p.work.files[x])
               else t.pubs[i] == p.(phase := Idle)
  {
  }

  /** The three files are written, in that order, until one of the writes fails. */
  lemma WriteExact(s: World, i: nat, writes: nat, x: Path)
    requires Inv(s) && Enabled(s, Write(i, writes))
    ensures var t, p := After(s, Write(i, writes)), s.pubs[i];
            var files := p.work.files;
            var merged := Mirror.Merged(MetadataFile(files, p.req.m), p.req.v, p.req.up);
            && OnlyPublisher(s, t, i) && t.commits == s.commits && t.pubs[i].req == p.req && t.pubs[i].fetched == p.fetched
            && t.pubs[i].phase == (if writes >= 3 && merged.Some? then Filled else Idle)
            && t.pubs[i].work.tracked == p.work.tracked
            && (if x == Source(p.req.m, p.req.v) && writes >= 1 then
                  x in t.pubs[i].work.files && t.pubs[i].work.files[x] == p.req.sourceJson
                else if x == ModuleBazel(p.req.m, p.req.v) && writes >= 2 && p.req.moduleBazel.Some? then
                  x in t.pubs[i].work.files && t.pubs[i].work.files[x] == p.req.moduleBazel.value
                else if x == Metadata(p.req.m) && writes >= 3 && merged.Some? then
                  x in t.pubs[i].work.files && t.pubs[i].work.files[x] == Meta(merged.value)
                else (x in t.pubs[i].work.files <==> x in files) && (x in files ==> t.pubs[i].work.files[x] == files[x]))
  {
    var p := s.pubs[i];
    assert MetadataFile(WithModuleBazel(WithSource(p.work.files, p.req), p.req), p.req.m) == MetadataFile(p.work.files, p.req.m);
  }

  /** The commit is a child of the tip that was fetched; without a change there is none. */
  lemma CommitExact(s: World, i: nat, ok: bool)
    requires Inv(s) && Enabled(s, MakeCommit(i, ok))
    ensures s.pubs[i].fetched != [] && s.pubs[i].fetched[|s.pubs[i].fetched| - 1] < |s.commits|
    ensures var t, p := After(s, MakeCommit(i, ok)), s.pubs[i];
            var base := p.fetched[|p.fetched| - 1];
            var tree := CommitTree(s.commits[base].tree, p.work.files, p.req.m);
            && OnlyPublisher(s, t, i) && t.pubs[i].req == p.req && t.pubs[i].fetched == p.fetched && t.pubs[i].work.files == p.work.files
            && if ok && tree != s.commits[base].tree then
                 t.pubs[i].phase == Committed(|s.commits|) && t.commits == s.commits + [Commit(base, tree)]
               else t.pubs[i].phase == Idle && t.commits == s.commits
  {
  }

  /** A push lands exactly when it works and is a fast-forward; then the tip is its commit.  A receipt is
      given exactly when that is also acknowledged.  Turned down as no fast-forward, the first attempt
      is made again and the second is the last. */
  lemma PushExact(s: World, i: nat, ok: bool, ack: bool)
    requires Inv(s) && Enabled(s, Push(i, ok, ack))
    ensures var t, p := After(s, Push(i, ok, ack)), s.pubs[i];
            var lands := ok && Ancestor(s.commits, s.tip, p.phase.sha);
            && t.commits == s.commits
            && t.tip == (if lands then p.phase.sha else s.tip)
            && t.receipts == s.receipts + (if lands && ack then [Receipted(p.req, p.phase.sha)] else [])
            && t.pubs == s.pubs[i := t.pubs[i]]
            && t.pubs[i] == p.(phase := if ok && !lands && |p.fetched| == 1 then Syncing else Idle)
  {
  }

  /** A commit is a fast-forward exactly when the branch is still where its attempt found it, or is at
      the commit itself. */
  lemma FastForwardExact(s: World, i: nat, ok: bool, ack: bool)
    requires Inv(s) && Enabled(s, Push(i, ok, ack))
    ensures var p := s.pubs[i];
            Ancestor(s.commits, s.tip, p.phase.sha) <==> s.tip == p.fetched[|p.fetched| - 1] || s.tip == p.phase.sha
  {
    var p := s.pubs[i];
    assert PublisherInv(p, s.commits, s.tip);
    var base := p.fetched[|p.fetched| - 1];
    if Ancestor(s.commits, s.tip, p.phase.sha) && s.tip != p.phase.sha {
      assert Ancestor(s.commits, s.tip, base) && Ancestor(s.commits, base, s.tip);
      AncestorOlder(s.commits, s.tip, base);
      AncestorOlder(s.commits, base, s.tip);
    }
    if s.tip == base {
      assert Ancestor(s.commits, base, base);
    }
  }

  lemma {:induction false} AncestorOlder(cs: seq<Commit>, a: nat, b: nat)
    requires Ancestor(cs, a, b)
    ensures a <= b
    decreases b
  {
    if a != b {
      AncestorOlder(cs, a, cs[b].parent);
    }
  }

  /** So while nobody else has pushed since the fetch, a push that works lands. */
  lemma UncontendedPushLands(s: World, i: nat, ack: bool)
    requires Inv(s) && Enabled(s, Push(i, true, ack)) && s.tip == s.pubs[i].fetched[|s.pubs[i].fetched| - 1]
    ensures var t := After(s, Push(i, true, ack)); t.tip == s.pubs[i].phase.sha && t.pubs[i].phase == Idle
  {
    FastForwardExact(s, i, true, ack);
    PushExact(s, i, true, ack);
  }

  // ----- Publishing gets done -----

  /** What an attempt on the present tip would commit. */
  function Attempted(s: World, i: nat, req: Request): Tree
    requires i < |s.pubs| && s.tip < |s.commits|
  {
    CommitTree(s.commits[s.tip].tree, Written(Synced(s.pubs[i].work, s.commits[s.tip].tree).files, req, 3), req.m)
  }

  /** The metadata can be merged, and there is something to commit. */
  predicate CanPublish(s: World, i: nat, req: Request)
    requires i < |s.pubs| && s.tip < |s.commits|
  {
    WriteOk(Synced(s.pubs[i].work, s.commits[s.tip].tree).files, req, 3) && Attempted(s, i, req) != s.commits[s.tip].tree
  }

  /** t is s after publisher i has published req on s's tip. */
  ghost predicate PublishedOn(s: World, t: World, i: nat, req: Request)
    requires i < |s.pubs| && s.tip < |s.commits|
  {
    && t.commits == s.commits + [Commit(s.tip, Attempted(s, i, req))] && t.tip == |s.commits|
    && t.receipts == s.receipts + [Receipted(req, |s.commits|)]
    && PublishedIn(t.commits[t.tip].tree, req)
  }

  /** The steps of one attempt that nobody disturbs. */
  function AttemptSteps(i: nat): seq<Step> {
    [Sync(i, true), Write(i, 3), MakeCommit(i, true), Push(i, true, true)]
  }

  lemma RunFirst(s: World, step: Step, rest: seq<Step>)
    requires Inv(s) && Enabled(s, step) && (StepKeeps(s, step); Run(After(s, step), rest))
    ensures Run(s, [step] + rest) && Execute(s, [step] + rest) == (StepKeeps(s, step); Execute(After(s, step), rest))
  {
    assert ([step] + rest)[1..] == rest;
  }

  lemma AttemptSynced(s: World, i: nat) returns (t: World)
    requires Inv(s) && i < |s.pubs| && s.pubs[i].phase == Syncing
    ensures Enabled(s, Sync(i, true)) && t == After(s, Sync(i, true)) && Inv(t)
    ensures t.commits == s.commits && t.tip == s.tip && t.receipts == s.receipts && |t.pubs| == |s.pubs|
    ensures var p := s.pubs[i];
            t.pubs[i] == Publisher(Ready, Synced(p.work, s.commits[s.tip].tree), p.req, p.fetched + [s.tip])
  {
    StepKeeps(s, Sync(i, true));
    t := After(s, Sync(i, true));
  }

  lemma AttemptWritten(s: World, i: nat) returns (t: World)
    requires Inv(s) && i < |s.pubs| && s.pubs[i].phase == Ready && WriteOk(s.pubs[i].work.files, s.pubs[i].req, 3)
    ensures Enabled(s, Write(i, 3)) && t == After(s, Write(i, 3)) && Inv(t)
    ensures t.commits == s.commits && t.tip == s.tip && t.receipts == s.receipts && |t.pubs| == |s.pubs|
    ensures var p := s.pubs[i];
            t.pubs[i] == Publisher(Filled, Checkout(Written(p.work.files, p.req, 3), p.work.tracked), p.req, p.fetched)
  {
    StepKeeps(s, Write(i, 3));
    t := After(s, Write(i, 3));
  }

  lemma AttemptCommitted(s: World, i: nat) returns (t: World)
    requires Inv(s) && i < |s.pubs| && s.pubs[i].phase == Filled && s.pubs[i].fetched != []
    requires s.pubs[i].fetched[|s.pubs[i].fetched| - 1] == s.tip
    requires CommitTree(s.commits[s.tip].tree, s.pubs[i].work.files, s.pubs[i].req.m) != s.commits[s.tip].tree
    ensures Enabled(s, MakeCommit(i, true)) && t == After(s, MakeCommit(i, true)) && Inv(t)
    ensures var p := s.pubs[i];
            && t.commits == s.commits + [Commit(s.tip, CommitTree(s.commits[s.tip].tree, p.work.files, p.req.m))]
            && t.tip == s.tip && t.receipts == s.receipts && |t.pubs| == |s.pubs|
            && t.pubs[i].phase == Committed(|s.commits|) && t.pubs[i].req == p.req && t.pubs[i].fetched == p.fetched
  {
    StepKeeps(s, MakeCommit(i, true));
    CommitExact(s, i, true);
    t := After(s, MakeCommit(i, true));
  }

  /** An attempt that works, from whatever state the others are in. */
  lemma AttemptPublishes(s: World, i: nat)
    requires Inv(s) && i < |s.pubs| && s.pubs[i].phase == Syncing && CanPublish(s, i, s.pubs[i].req)
    ensures Run(s, AttemptSteps(i)) && PublishedOn(s, Execute(s, AttemptSteps(i)), i, s.pubs[i].req)
  {
    var s1 := AttemptSynced(s, i);
    var s2 := AttemptWritten(s1, i);
    var s3 := AttemptCommitted(s2, i);
    StepKeeps(s3, Push(i, true, true));
    UncontendedPushLands(s3, i, true);
    PushExact(s3, i, true, true);
    var s4 := After(s3, Push(i, true, true));
    RunFirst(s3, Push(i, true, true), []);
    RunFirst(s2, MakeCommit(i, true), [Push(i, true, true)]);
    RunFirst(s1, Write(i, 3), [MakeCommit(i, true), Push(i, true, true)]);
    RunFirst(s, Sync(i, true), [Write(i, 3), MakeCommit(i, true), Push(i, true, true)]);
    assert PublisherInv(s3.pubs[i], s3.commits, s3.tip);
    assert Execute(s4, []) == s4;
  }

  /** Whenever a publisher is idle, a request whose metadata can be merged gets its receipt and is in the
      tip if nothing fails and nobody else pushes meanwhile, unless the tip has it already and no leftover
      is new to the tip. */
  lemma PublishSucceeds(s: World, i: nat, req: Request)
    requires Inv(s) && i < |s.pubs| && s.pubs[i].phase == Idle
    requires WriteOk(Synced(s.pubs[i].work, s.commits[s.tip].tree).files, req, 3)
    requires !(AlreadyPublished(s.commits[s.tip].tree, req)
               && forall p | p in s.pubs[i].work.files && p !in s.pubs[i].work.tracked && Staged(p, req.m) :: p in s.commits[s.tip].tree)
    ensures Run(s, [Begin(i, req)] + AttemptSteps(i)) && PublishedOn(s, Execute(s, [Begin(i, req)] + AttemptSteps(i)), i, req)
  {
    NothingToCommitExact(s.pubs[i].work, s.commits[s.tip].tree, req);
    StepKeeps(s, Begin(i, req));
    BeginExact(s, i, req);
    var s1 := After(s, Begin(i, req));
    AttemptPublishes(s1, i);
    RunFirst(s, Begin(i, req), AttemptSteps(i));
  }

  /** And a first attempt that another publisher has overtaken is made good by the second. */
  lemma RetrySucceeds(s: World, i: nat, ack: bool)
    requires Inv(s) && Enabled(s, Push(i, true, ack)) && |s.pubs[i].fetched| == 1
    requires s.tip != s.pubs[i].fetched[0] && s.tip != s.pubs[i].phase.sha && CanPublish(s, i, s.pubs[i].req)
    ensures Run(s, [Push(i, true, ack)] + AttemptSteps(i))
    ensures PublishedOn(s, Execute(s, [Push(i, true, ack)] + AttemptSteps(i)), i, s.pubs[i].req)
  {
    FastForwardExact(s, i, true, ack);
    PushExact(s, i, true, ack);
    StepKeeps(s, Push(i, true, ack));
    AttemptPublishes(After(s, Push(i, true, ack)), i);
    RunFirst(s, Push(i, true, ack), AttemptSteps(i));
  }

  /** Such a world: a branch that holds nothing yet, and one publisher. */
  lemma SomePublishSucceeds(req: Request) returns (s: World, t: World)
    requires req.up == Mirror.NoUpstream
    ensures Fresh(s) && (FreshInv(s); Run(s, [Begin(0, req)] + AttemptSteps(0)) && t == Execute(s, [Begin(0, req)] + AttemptSteps(0)))
    ensures t.receipts == [Receipted(req, 1)] && t.tip == 1 && |t.commits| == 2 && PublishedIn(t.commits[1].tree, req)
  {
    s := World([Commit(0, map[])], 0, [Publisher(Idle, Checkout(map[], {}), req, [])], []);
    FreshInv(s);
    assert Source(req.m, req.v) !in s.commits[0].tree;
    PublishSucceeds(s, 0, req);
    t := Execute(s, [Begin(0, req)] + AttemptSteps(0));
  }
}
