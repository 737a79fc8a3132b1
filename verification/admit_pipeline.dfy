/** One admission (internal/admit/pipeline.go, internal/admit/sourcejson.go): fetch, finalise the
    blob, look inside it, publish. */
module AdmitPipeline {
  import opened ContentAddress
  import opened Wrappers

  // ----- Inside the archive -----

  /** The regular files of an extracted archive, by slash path. */
  type Files = map<string, Bytes>

  function TopLevelDir(path: string): string {
    if SlashAt(path) == 0 || SlashAt(path) == |path| then "" else path[..SlashAt(path)]
  }

  /** The first '/', or |s|. */
  function SlashAt(s: string): (i: nat)
    ensures i <= |s| && '/' !in s[..i] && (i < |s| ==> s[i] == '/')
  {
    if s == "" || s[0] == '/' then 0 else 1 + SlashAt(s[1..])
  }

  /** A path has a top-level directory exactly when there is something before its first '/'. */
  lemma TopLevelExact(path: string, p: string)
    requires p != ""
    ensures TopLevelDir(path) == p <==> '/' !in p && p + "/" <= path
  {
    if '/' !in p && p + "/" <= path {
      assert path[..|p| + 1] == p + "/" && path[|p|] == '/' && path[..|p|] == p;
      SlashIs(path, |p|);
    }
    if TopLevelDir(path) == p {
      assert path[..|p| + 1] == p + "/";
    }
  }

  /** There are files, and all of them are under the directory p. */
  ghost predicate AllUnder(paths: set<string>, p: string) {
    paths != {} && p != "" && forall x | x in paths :: TopLevelDir(x) == p
  }

  ghost predicate IsStripPrefix(paths: set<string>, p: string) {
    AllUnder(paths, p) || (p == "" && forall q :: !AllUnder(paths, q))
  }

  method DetectStripPrefix(entries: seq<string>) returns (p: string)
    ensures IsStripPrefix((set x | x in entries), p)
  {
    ghost var paths := set x | x in entries;
    if |entries| == 0 {
      return "";
    }
    assert entries[0] in paths;
    var first := TopLevelDir(entries[0]);
    if first == "" {
      return "";
    }
    for i := 1 to |entries|
      invariant forall j | 0 <= j < i :: TopLevelDir(entries[j]) == first
    {
      if TopLevelDir(entries[i]) != first {
        assert entries[i] in paths;
        return "";
      }
    }
    return first;
  }

  /** At most one prefix fits, so the order in which the files are walked does not matter. */
  lemma PrefixUnique(paths: set<string>, p: string, q: string)
    requires IsStripPrefix(paths, p) && IsStripPrefix(paths, q)
    ensures p == q
  {
    if paths != {} {
      var x :| x in paths;
    }
  }

  function ModuleBazelPath(prefix: string): string {
    if prefix == "" then "MODULE.bazel" else prefix + "/MODULE.bazel"
  }

  /** Where MODULE.bazel is looked for. */
  lemma ModuleBazelPathExact(prefix: string)
    ensures ModuleBazelPath("") == "MODULE.bazel"
    ensures prefix != "" ==> ModuleBazelPath(prefix) == prefix + "/" + "MODULE.bazel"
  {
    assert prefix + "/" + "MODULE.bazel" == prefix + "/MODULE.bazel";
  }

  function ModuleBazelAt(files: Files, prefix: string): Option<Bytes> {
    if ModuleBazelPath(prefix) in files then Some(files[ModuleBazelPath(prefix)]) else None
  }

  // ----- The request and what is published -----

  datatype Identity = Identity(name: string, email: string)

  const NOBODY := Identity("", "")

  datatype CascadeHit = CascadeHit(url: string, stripPrefix: string)

  datatype Request = Request(m: string, version: string, sourceUrl: string, cascade: Option<CascadeHit>, submitter: Identity)

  datatype SourceJson = SourceJson(url: string, integrity: string, stripPrefix: string)

  datatype Publication = Publication(m: string, version: string, source: SourceJson, moduleBazel: Option<Bytes>,
    blob: string, requester: Identity)

  function BuildSourceJSON(url: string, integrity: string, stripPrefix: string): Option<SourceJson> {
    if url == "" || integrity == "" || '-' !in integrity then None else Some(SourceJson(url, integrity, stripPrefix))
  }

  function UrlOf(r: Request): string {
    if r.sourceUrl != "" then r.sourceUrl else if r.cascade.Some? then r.cascade.value.url else ""
  }

  /** A strip prefix is taken over from the cascade only together with its URL. */
  function CascadeStrip(r: Request): string {
    if r.sourceUrl == "" && r.cascade.Some? then r.cascade.value.stripPrefix else ""
  }

  /** The request's own URL comes first; a URL of the cascade brings its strip prefix along. */
  lemma SourceExact(r: Request)
    ensures r.sourceUrl != "" ==> UrlOf(r) == r.sourceUrl && CascadeStrip(r) == ""
    ensures r.sourceUrl == "" && r.cascade.Some? ==> UrlOf(r) == r.cascade.value.url && CascadeStrip(r) == r.cascade.value.stripPrefix
    ensures r.sourceUrl == "" && r.cascade.None? ==> UrlOf(r) == "" && CascadeStrip(r) == ""
  {
  }

  datatype Stage = NoUrl | BeginBlob | Fetch | CloseBlob | Extract | SourceJsonBuilt | Publish

  datatype Outcome = Admitted(integrity: string, bytes: nat) | Rejected(at: Stage)

  /** How the world answers the calls of one admission. */
  datatype Env = Env(begins: bool, fetched: Option<Bytes>, closes: bool, untar: Bytes -> Option<Files>, publishes: bool)

  /** What a publication promises about the archive that was fetched. */
  ghost predicate Faithful(p: Publication, r: Request, content: Bytes, files: Files, sha: Hash, bot: Identity) {
    && p.m == r.m && p.version == r.version
    && p.source.url == UrlOf(r) != ""
    && p.source.integrity == SRI(sha(content)) && p.blob == Encode16(sha(content))
    && IntegrityToHex(p.source.integrity) == Some(p.blob)
    && (exists d :: IsStripPrefix(files.Keys, d)
          && p.moduleBazel == ModuleBazelAt(files, d)
          && p.source.stripPrefix == if CascadeStrip(r) != "" then CascadeStrip(r) else d)
    && p.requester == if r.submitter == NOBODY then bot else r.submitter
  }

  class Publisher {
    const sha: Hash
    const bot: Identity
    var blobs: map<string, Bytes>
    var published: seq<Publication>

    /** Every publication has its blob, stored under its digest. */
    ghost predicate Valid()
      reads this
    {
      && To32(sha)
      && (forall name | name in blobs :: name == Encode16(sha(blobs[name])))
      && (forall p | p in published :: p.blob in blobs && IntegrityToHex(p.source.integrity) == Some(p.blob))
    }

    constructor (sha: Hash, bot: Identity)
      requires To32(sha)
      ensures Valid() && blobs == map[] && published == [] && this.sha == sha && this.bot == bot
    {
      this.sha, this.bot, blobs, published := sha, bot, map[], [];
    }

    /** admitOne.  Success is exactly that every step succeeds, in order; a blob is left behind
        exactly when the archive was fetched and finalised; and nothing is published but by the last
        step, and then truthfully. */
    method AdmitOne(r: Request, env: Env) returns (out: Outcome)
      requires Valid()
      modifies this
      ensures Valid()
      ensures out.Admitted? <==> UrlOf(r) != "" && env.begins && env.fetched.Some? && env.closes
                                 && env.untar(env.fetched.value).Some? && env.publishes
      ensures blobs == if UrlOf(r) != "" && env.begins && env.fetched.Some? && env.closes
                       then Finalised(old(blobs), Encode16(sha(env.fetched.value)), env.fetched.value) else old(blobs)
      ensures out.Rejected? ==> published == old(published) && !out.at.SourceJsonBuilt?
      ensures out.Admitted? ==>
                && |published| == |old(published)| + 1 && published[..|old(published)|] == old(published)
                && Faithful(published[|old(published)|], r, env.fetched.value, env.untar(env.fetched.value).value, sha, bot)
                && out == Admitted(SRI(sha(env.fetched.value)), |env.fetched.value|)
    {
      var url, cascadeStrip := r.sourceUrl, "";
      if url == "" && r.cascade.Some? {
        url, cascadeStrip := r.cascade.value.url, r.cascade.value.stripPrefix;
      }
      if url == "" {
        return Rejected(NoUrl);
      }
      if !env.begins {
        return Rejected(BeginBlob);
      }
      if env.fetched.None? {
        return Rejected(Fetch);
      }
      var content := env.fetched.value;
      var closed := StoreBlob(content, env.closes);
      if !closed {
        return Rejected(CloseBlob);
      }
      if env.untar(content).None? {
        return Rejected(Extract);
      }
      var files := env.untar(content).value;
      var p := Describe(r, url, cascadeStrip, content, files);
      if p.None? {
        return Rejected(SourceJsonBuilt);
      }
      if !env.publishes {
        return Rejected(Publish);
      }
      published := published + [p.value];
      return Admitted(p.value.source.integrity, |content|);
    }

    method StoreBlob(content: Bytes, closes: bool) returns (closed: bool)
      requires Valid()
      modifies `blobs
      ensures Valid() && closed == closes
      ensures blobs == if closes then Finalised(old(blobs), Encode16(sha(content)), content) else old(blobs)
    {
      var sink := new BlobSink(sha);
      sink.Write(content, |content|);
      assert sink.tmp == sink.hashed == content by {
        assert [] + content[..|content|] == content;
      }
      blobs, closed := sink.Close(blobs, closes);
    }

    method Describe(r: Request, url: string, cascadeStrip: string, content: Bytes, files: Files) returns (p: Option<Publication>)
      requires To32(sha) && url == UrlOf(r) != "" && cascadeStrip == CascadeStrip(r)
      ensures p.Some? && Faithful(p.value, r, content, files, sha, bot)
    {
      var stripPrefix := PrefixOf(files);
      var moduleBazel := ModuleBazelAt(files, stripPrefix);
      var recorded := if cascadeStrip != "" then cascadeStrip else stripPrefix;
      AddressesAgree(sha(content));
      var source := BuildSourceJSON(url, SRI(sha(content)), recorded);
      assert SRI(sha(content))[6] == '-';
      if source.None? {
        return None;
      }
      var requester := if r.submitter == NOBODY then bot else r.submitter;
      p := Some(Publication(r.m, r.version, source.value, moduleBazel, Encode16(sha(content)), requester));
    }
  }

  /** The files in whatever order they are walked. */
  method PrefixOf(files: Files) returns (p: string)
    ensures IsStripPrefix(files.Keys, p)
  {
    var entries: seq<string>, left := [], files.Keys;
    while left != {}
      invariant (set x | x in entries) + left == files.Keys
      decreases left
    {
      var x :| x in left;
      entries, left := entries + [x], left - {x};
    }
    p := DetectStripPrefix(entries);
    assert (set x | x in entries) == files.Keys;
  }

  // ----- The recorded root -----

  /** The MODULE.bazel that is published is the one at the root that source.json records. */
  predicate RootAgrees(files: Files, detected: string, cascadeStrip: string) {
    ModuleBazelAt(files, detected) == ModuleBazelAt(files, if cascadeStrip != "" then cascadeStrip else detected)
  }

  /** Of one archive: when the cascade supplied no prefix, or the detected one, or there is the same file
      at both or none at either.  When all files are under one directory and the cascade names one, it
      must be that directory unless the archive has no MODULE.bazel. */
  lemma RootAgreesExact(files: Files, detected: string, cascadeStrip: string)
    requires IsStripPrefix(files.Keys, detected)
    ensures RootAgrees(files, detected, cascadeStrip) <==>
              cascadeStrip == "" || cascadeStrip == detected
              || ModuleBazelAt(files, cascadeStrip) == ModuleBazelAt(files, detected)
    ensures detected != "" && '/' !in cascadeStrip ==>
              (RootAgrees(files, detected, cascadeStrip) <==>
                cascadeStrip == "" || cascadeStrip == detected || ModuleBazelPath(detected) !in files)
  {
    if cascadeStrip != "" && '/' !in cascadeStrip {
      var path := ModuleBazelPath(cascadeStrip);
      assert path[|cascadeStrip|] == '/' && path[..|cascadeStrip|] == cascadeStrip;
      SlashIs(path, |cascadeStrip|);
      assert TopLevelDir(path) == cascadeStrip;
      assert path in files ==> path in files.Keys;
    }
  }

  lemma {:induction false} SlashIs(s: string, i: nat)
    requires i < |s| && s[i] == '/' && '/' !in s[..i]
    ensures SlashAt(s) == i
  {
    if i > 0 {
      assert s[..i][0] == s[0] && s[1..][..i - 1] == s[..i][1..];
      SlashIs(s[1..], i - 1);
    }
  }

  /** MODULE.bazel is read under the detected prefix, also when the cascade's prefix is recorded. So
      the two belong together, for every archive, exactly when the cascade supplied no prefix. */
  lemma RootExact(cascadeStrip: string)
    ensures (forall files: Files, d | IsStripPrefix(files.Keys, d) :: RootAgrees(files, d, cascadeStrip)) <==> cascadeStrip == ""
  {
    if cascadeStrip != "" {
      var files := BareArchive();
      PathsDiffer(cascadeStrip);
      Disagrees(files, "", cascadeStrip);
    }
  }

  lemma Disagrees(files: Files, d: string, cascadeStrip: string)
    requires cascadeStrip != "" && ModuleBazelPath(d) in files && ModuleBazelPath(cascadeStrip) !in files
    ensures !RootAgrees(files, d, cascadeStrip)
  {
  }

  lemma PathsDiffer(prefix: string)
    requires prefix != ""
    ensures ModuleBazelPath(prefix) != ModuleBazelPath("")
  {
    assert |ModuleBazelPath(prefix)| > |ModuleBazelPath("")|;
  }

  /** An archive whose only file is a MODULE.bazel at its root. */
  lemma BareArchive() returns (files: Files)
    ensures files.Keys == {ModuleBazelPath("")} && IsStripPrefix(files.Keys, "")
  {
    var path := ModuleBazelPath("");
    files := map[path := [1]];
    NoSlash();
    OneFileNoPrefix(path);
  }

  lemma NoSlash()
    ensures '/' !in ModuleBazelPath("")
  {
  }

  lemma OneFileNoPrefix(path: string)
    requires '/' !in path
    ensures IsStripPrefix({path}, "")
  {
    NoTopLevel(path);
    assert path in {path};
  }

  lemma NoTopLevel(path: string)
    requires '/' !in path
    ensures TopLevelDir(path) == ""
  {
  }
}
