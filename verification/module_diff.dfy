/** The structural diff of two module reports and its classification of breaking changes
    (internal/modulediff).

    The program indexes both sides by name in Go maps, walks those maps in whatever order the
    runtime gives, and sorts what it collected.  The methods below do the same, picking keys in
    an arbitrary order; their results are functions of the two reports.
 */
module ModuleDiff {
  import opened Ordering
  import opened Wrappers

  // ----- What a module report exposes -----

  datatype AttrSpec = AttrSpec(name: string, typ: string, default: string, mandatory: bool)

  /** A rule, or a repository rule adapted to one. */
  datatype RuleSpec = RuleSpec(name: string, isPrivate: bool, attrs: seq<AttrSpec>)

  /** A provider with its fields, or a module extension with its tag class names. */
  datatype GroupSpec = GroupSpec(name: string, isPrivate: bool, members: seq<string>)

  /** A macro, aspect or toolchain.  Only aspects are filtered by their private mark. */
  datatype NameSpec = NameSpec(name: string, isPrivate: bool)

  datatype ModuleKey = ModuleKey(name: string, version: string)

  datatype ModuleReport = ModuleReport(
    name: string,
    version: string,
    compatibilityLevel: int,
    hermeticity: seq<string>,
    bazelDeps: seq<ModuleKey>,
    rules: seq<RuleSpec>,
    providers: seq<GroupSpec>,
    macros: seq<NameSpec>,
    aspects: seq<NameSpec>,
    toolchains: seq<NameSpec>,
    repositoryRules: seq<RuleSpec>,
    moduleExtensions: seq<GroupSpec>)

  function AttrName(a: AttrSpec): string { a.name }
  function RuleName(r: RuleSpec): string { r.name }
  function GroupName(g: GroupSpec): string { g.name }
  function KeyName(k: ModuleKey): string { k.name }

  predicate PublicName(n: string) {
    n != [] && n[0] != '_'
  }

  // ----- The diff -----

  datatype NamesDiff = NamesDiff(added: seq<string>, removed: seq<string>)

  datatype ChangedDep = ChangedDep(name: string, fromVersion: string, toVersion: string)

  datatype DepsDiff = DepsDiff(added: seq<ModuleKey>, removed: seq<ModuleKey>, changed: seq<ChangedDep>)

  datatype AttrChange = AttrChange(
    name: string,
    fromType: string, toType: string,
    fromDefault: string, toDefault: string,
    fromMandatory: bool, toMandatory: bool, mandatoryFlip: bool)

  datatype ChangedRule = ChangedRule(name: string, attrsAdd: seq<AttrSpec>, attrsRem: seq<AttrSpec>, attrsChg: seq<AttrChange>)

  datatype RulesDiff = RulesDiff(added: seq<string>, removed: seq<string>, changed: seq<ChangedRule>)

  datatype ChangedGroup = ChangedGroup(name: string, added: seq<string>, removed: seq<string>)

  datatype GroupsDiff = GroupsDiff(added: seq<string>, removed: seq<string>, changed: seq<ChangedGroup>)

  datatype CompatChange = CompatChange(fromLevel: int, toLevel: int)

  datatype Diff = Diff(
    moduleName: string,
    fromVersion: string,
    toVersion: string,
    compatibilityLevel: Option<CompatChange>,
    hermeticity: Option<NamesDiff>,
    bazelDeps: DepsDiff,
    rules: RulesDiff,
    providers: GroupsDiff,
    macros: NamesDiff,
    aspects: NamesDiff,
    toolchains: NamesDiff,
    repositoryRules: RulesDiff,
    moduleExtensions: GroupsDiff)

  function DepName(c: ChangedDep): string { c.name }
  function ChangedAttrName(c: AttrChange): string { c.name }
  function ChangedRuleName(c: ChangedRule): string { c.name }
  function ChangedGroupName(c: ChangedGroup): string { c.name }

  // ----- Specification: maps by name, and what differs between two of them -----

  /** The index the program builds: of several entries with one name the last one counts. */
  function ByName<T>(s: seq<T>, name: T -> string): map<string, T> {
    if s == [] then map[] else ByName(s[..|s| - 1], name)[name(s[|s| - 1]) := s[|s| - 1]]
  }

  function PublicRules(rs: seq<RuleSpec>): seq<RuleSpec> {
    if rs == [] then []
    else
      var rest, r := PublicRules(rs[..|rs| - 1]), rs[|rs| - 1];
      if !r.isPrivate && PublicName(r.name) then rest + [r] else rest
  }

  function PublicGroups(gs: seq<GroupSpec>): seq<GroupSpec> {
    if gs == [] then []
    else
      var rest, g := PublicGroups(gs[..|gs| - 1]), gs[|gs| - 1];
      if !g.isPrivate && PublicName(g.name) then rest + [g] else rest
  }

  function PublicNames(ns: seq<NameSpec>, byMark: bool): seq<string> {
    if ns == [] then []
    else
      var rest, n := PublicNames(ns[..|ns| - 1], byMark), ns[|ns| - 1];
      if !(byMark && n.isPrivate) && PublicName(n.name) then rest + [n.name] else rest
  }

  function AsSet(s: seq<string>): set<string> {
    set x | x in s
  }

  ghost function NamesDiffOf(a: set<string>, b: set<string>): NamesDiff {
    NamesDiff(Listing(b - a), Listing(a - b))
  }

  function AttrChangeOf(a: AttrSpec, b: AttrSpec): Option<AttrChange> {
    if a.typ == b.typ && a.default == b.default && a.mandatory == b.mandatory then None
    else Some(AttrChange(
      a.name,
      if a.typ != b.typ then a.typ else "", if a.typ != b.typ then b.typ else "",
      if a.default != b.default then a.default else "", if a.default != b.default then b.default else "",
      a.mandatory != b.mandatory && a.mandatory, a.mandatory != b.mandatory && b.mandatory, a.mandatory != b.mandatory))
  }

  type Attrs = map<string, AttrSpec>

  function AttrChanges(a: Attrs, b: Attrs): map<string, AttrChange> {
    map n | n in a && n in b && AttrChangeOf(a[n], b[n]).Some? :: AttrChangeOf(a[n], b[n]).value
  }

  predicate SameAttrs(a: Attrs, b: Attrs) {
    b - a.Keys == map[] && a - b.Keys == map[] && AttrChanges(a, b) == map[]
  }

  function AttrsOf(r: RuleSpec): Attrs {
    ByName(r.attrs, AttrName)
  }

  ghost function RuleChangeOf(a: RuleSpec, b: RuleSpec): Option<ChangedRule> {
    var am, bm := AttrsOf(a), AttrsOf(b);
    if SameAttrs(am, bm) then None
    else Some(ChangedRule(a.name, InOrder(bm - am.Keys), InOrder(am - bm.Keys), InOrder(AttrChanges(am, bm))))
  }

  type Rules = map<string, RuleSpec>

  ghost function RuleChanges(a: Rules, b: Rules): map<string, ChangedRule> {
    map n | n in a && n in b && RuleChangeOf(a[n], b[n]).Some? :: RuleChangeOf(a[n], b[n]).value
  }

  ghost function RulesDiffOf(a: Rules, b: Rules): RulesDiff {
    RulesDiff(Listing(b.Keys - a.Keys), Listing(a.Keys - b.Keys), InOrder(RuleChanges(a, b)))
  }

  ghost function GroupChangeOf(a: GroupSpec, b: GroupSpec): Option<ChangedGroup> {
    var am, bm := AsSet(a.members), AsSet(b.members);
    if am == bm then None else Some(ChangedGroup(a.name, Listing(bm - am), Listing(am - bm)))
  }

  type Groups = map<string, GroupSpec>

  ghost function GroupChanges(a: Groups, b: Groups): map<string, ChangedGroup> {
    map n | n in a && n in b && GroupChangeOf(a[n], b[n]).Some? :: GroupChangeOf(a[n], b[n]).value
  }

  ghost function GroupsDiffOf(a: Groups, b: Groups): GroupsDiff {
    GroupsDiff(Listing(b.Keys - a.Keys), Listing(a.Keys - b.Keys), InOrder(GroupChanges(a, b)))
  }

  type Deps = map<string, ModuleKey>

  function DepChanges(a: Deps, b: Deps): map<string, ChangedDep> {
    map n | n in a && n in b && a[n].version != b[n].version :: ChangedDep(n, a[n].version, b[n].version)
  }

  ghost function DepsDiffOf(a: Deps, b: Deps): DepsDiff {
    DepsDiff(InOrder(b - a.Keys), InOrder(a - b.Keys), InOrder(DepChanges(a, b)))
  }

  function RulesOf(rs: seq<RuleSpec>): Rules { ByName(PublicRules(rs), RuleName) }
  function GroupsOf(gs: seq<GroupSpec>): Groups { ByName(PublicGroups(gs), GroupName) }
  function NamesOf(ns: seq<NameSpec>, byMark: bool): set<string> { AsSet(PublicNames(ns, byMark)) }
  function DepsOf(ds: seq<ModuleKey>): Deps { ByName(ds, KeyName) }

  /** The whole diff as a function of the two reports. */
  ghost function DiffOf(from: ModuleReport, to: ModuleReport): Diff {
    var ha, hb := AsSet(from.hermeticity), AsSet(to.hermeticity);
    Diff(
      to.name, from.version, to.version,
      if from.compatibilityLevel == to.compatibilityLevel then None
      else Some(CompatChange(from.compatibilityLevel, to.compatibilityLevel)),
      if ha == hb then None else Some(NamesDiffOf(ha, hb)),
      DepsDiffOf(DepsOf(from.bazelDeps), DepsOf(to.bazelDeps)),
      RulesDiffOf(RulesOf(from.rules), RulesOf(to.rules)),
      GroupsDiffOf(GroupsOf(from.providers), GroupsOf(to.providers)),
      NamesDiffOf(NamesOf(from.macros, false), NamesOf(to.macros, false)),
      NamesDiffOf(NamesOf(from.aspects, true), NamesOf(to.aspects, true)),
      NamesDiffOf(NamesOf(from.toolchains, false), NamesOf(to.toolchains, false)),
      RulesDiffOf(RulesOf(from.repositoryRules), RulesOf(to.repositoryRules)),
      GroupsDiffOf(GroupsOf(from.moduleExtensions), GroupsOf(to.moduleExtensions)))
  }

  lemma {:induction false} ByNameKeys<T(!new)>(s: seq<T>, name: T -> string)
    ensures forall n | n in ByName(s, name) :: name(ByName(s, name)[n]) == n && ByName(s, name)[n] in s
  {
    if s != [] {
      ByNameKeys(s[..|s| - 1], name);
    }
  }

  // ----- The program: indexing, map walks in arbitrary order, sorting -----

  method IndexByName<T>(s: seq<T>, name: T -> string) returns (m: map<string, T>)
    ensures m == ByName(s, name)
  {
    m := map[];
    for i := 0 to |s|
      invariant m == ByName(s[..i], name)
    {
      assert s[..i + 1][..i] == s[..i];
      m := m[name(s[i]) := s[i]];
    }
    assert s[..|s|] == s;
  }

  method SetOf(s: seq<string>) returns (m: set<string>)
    ensures m == AsSet(s)
  {
    m := {};
    for i := 0 to |s|
      invariant m == AsSet(s[..i])
    {
      assert forall x :: x in s[..i + 1] <==> x in s[..i] || x == s[i];
      m := m + {s[i]};
    }
    assert s[..|s|] == s;
  }

  /** One pass over the keys of one map that are missing in the other, then sort.Strings. */
  method MissingNames(keys: set<string>, other: set<string>) returns (out: seq<string>)
    ensures out == Listing(keys - other)
  {
    var todo := keys;
    out := [];
    while todo != {}
      invariant todo <= keys
      invariant forall x :: x in out <==> x in keys - todo - other
      invariant forall i, j | 0 <= i < j < |out| :: out[i] != out[j]
      decreases todo
    {
      var x :| x in todo;
      todo := todo - {x};
      if x !in other {
        assert x !in out;
        out := out + [x];
      }
    }
    SortLists(out, keys - other);
    ListsUnique(Sort(out), Listing(keys - other), keys - other);
    out := Sort(out);
  }

  /** One pass over the records of a map, then sort.Slice by name. */
  method SortedRecords<T(!new)>(m: map<string, T>, name: T -> string) returns (out: seq<T>)
    requires forall k | k in m :: name(m[k]) == k
    ensures out == InOrder(m)
  {
    var todo := m.Keys;
    out := [];
    while todo != {}
      invariant todo <= m.Keys
      invariant Holds(out, name, m - todo)
      decreases todo
    {
      var x :| x in todo;
      HoldsOneMore(out, name, m, todo, x);
      todo := todo - {x};
      out := out + [m[x]];
    }
    assert m - {} == m;
    SortByInOrder(out, name, m);
    out := SortBy(name, out);
  }

  lemma HoldsOneMore<T(!new)>(s: seq<T>, name: T -> string, m: map<string, T>, todo: set<string>, x: string)
    requires Holds(s, name, m - todo) && x in todo && x in m && name(m[x]) == x
    ensures Holds(s + [m[x]], name, m - (todo - {x}))
  {
    var r, m' := s + [m[x]], m - (todo - {x});
    forall k | k in m'
      ensures m'[k] in r && name(m'[k]) == k
    {
      if k != x {
        assert k in m - todo;
      }
    }
    forall i, j | 0 <= i < j < |r|
      ensures name(r[i]) != name(r[j])
    {
      assert r[i] in s;
      if j < |s| {
        assert r[i] == s[i] && r[j] == s[j];
      }
    }
  }

  method CompareAttr(a: AttrSpec, b: AttrSpec) returns (c: Option<AttrChange>)
    ensures c == AttrChangeOf(a, b)
  {
    var ch := AttrChange(a.name, "", "", "", "", false, false, false);
    var changed := false;
    if a.typ != b.typ {
      ch := ch.(fromType := a.typ, toType := b.typ);
      changed := true;
    }
    if a.default != b.default {
      ch := ch.(fromDefault := a.default, toDefault := b.default);
      changed := true;
    }
    if a.mandatory != b.mandatory {
      ch := ch.(fromMandatory := a.mandatory, toMandatory := b.mandatory, mandatoryFlip := true);
      changed := true;
    }
    c := if changed then Some(ch) else None;
  }

  /** The names on both sides whose records differ, over the keys of the newer side. */
  method ChangedAttrs(am: map<string, AttrSpec>, bm: map<string, AttrSpec>) returns (chg: map<string, AttrChange>)
    ensures chg == AttrChanges(am, bm)
  {
    chg := map[];
    var todo := bm.Keys;
    while todo != {}
      invariant todo <= bm.Keys
      invariant forall n | n in chg :: n in bm && n !in todo
      invariant forall n | n in bm && n !in todo :: n in chg <==> n in AttrChanges(am, bm)
      invariant forall n | n in chg :: n in AttrChanges(am, bm) && chg[n] == AttrChanges(am, bm)[n]
      decreases todo
    {
      var n :| n in todo;
      todo := todo - {n};
      if n in am {
        var c := CompareAttr(am[n], bm[n]);
        if c.Some? {
          chg := chg[n := c.value];
        }
      }
    }
  }

  method CompareRule(a: RuleSpec, b: RuleSpec) returns (c: Option<ChangedRule>)
    ensures c == RuleChangeOf(a, b)
  {
    var am := IndexByName(a.attrs, AttrName);
    var bm := IndexByName(b.attrs, AttrName);
    ByNameKeys(a.attrs, AttrName);
    ByNameKeys(b.attrs, AttrName);
    var chg := ChangedAttrs(am, bm);
    var add := SortedRecords(bm - am.Keys, AttrName);
    var rem := SortedRecords(am - bm.Keys, AttrName);
    var attrsChg := SortedRecords(chg, ChangedAttrName);
    InOrderEmpty(bm - am.Keys);
    InOrderEmpty(am - bm.Keys);
    InOrderEmpty(chg);
    if |add| == 0 && |rem| == 0 && |attrsChg| == 0 {
      return None;
    }
    c := Some(ChangedRule(a.name, add, rem, attrsChg));
  }

  /** The names on both sides whose records differ, over the keys of the newer side. */
  method ChangedRules(am: map<string, RuleSpec>, bm: map<string, RuleSpec>) returns (chg: map<string, ChangedRule>)
    ensures chg == RuleChanges(am, bm)
  {
    chg := map[];
    var todo := bm.Keys;
    while todo != {}
      invariant todo <= bm.Keys
      invariant forall n | n in chg :: n in bm && n !in todo
      invariant forall n | n in bm && n !in todo :: n in chg <==> n in RuleChanges(am, bm)
      invariant forall n | n in chg :: n in RuleChanges(am, bm) && chg[n] == RuleChanges(am, bm)[n]
      decreases todo
    {
      var n :| n in todo;
      todo := todo - {n};
      if n in am {
        var c := CompareRule(am[n], bm[n]);
        if c.Some? {
          chg := chg[n := c.value];
        }
      }
    }
  }

  method DiffRules(a: seq<RuleSpec>, b: seq<RuleSpec>) returns (out: RulesDiff)
    ensures out == RulesDiffOf(ByName(a, RuleName), ByName(b, RuleName))
  {
    var am := IndexByName(a, RuleName);
    var bm := IndexByName(b, RuleName);
    ByNameKeys(a, RuleName);
    var chg := ChangedRules(am, bm);
    var added := MissingNames(bm.Keys, am.Keys);
    var removed := MissingNames(am.Keys, bm.Keys);
    var changed := SortedRecords(chg, ChangedRuleName);
    out := RulesDiff(added, removed, changed);
  }

  method CompareGroup(a: GroupSpec, b: GroupSpec) returns (c: Option<ChangedGroup>)
    ensures c == GroupChangeOf(a, b)
  {
    var am := SetOf(a.members);
    var bm := SetOf(b.members);
    var added := MissingNames(bm, am);
    var removed := MissingNames(am, bm);
    NonEmptyListing(added, bm - am);
    NonEmptyListing(removed, am - bm);
    if |added| == 0 && |removed| == 0 {
      assert am == bm;
      return None;
    }
    c := Some(ChangedGroup(a.name, added, removed));
  }

  /** The names on both sides whose records differ, over the keys of the newer side. */
  method ChangedGroups(am: map<string, GroupSpec>, bm: map<string, GroupSpec>) returns (chg: map<string, ChangedGroup>)
    ensures chg == GroupChanges(am, bm)
  {
    chg := map[];
    var todo := bm.Keys;
    while todo != {}
      invariant todo <= bm.Keys
      invariant forall n | n in chg :: n in bm && n !in todo
      invariant forall n | n in bm && n !in todo :: n in chg <==> n in GroupChanges(am, bm)
      invariant forall n | n in chg :: n in GroupChanges(am, bm) && chg[n] == GroupChanges(am, bm)[n]
      decreases todo
    {
      var n :| n in todo;
      todo := todo - {n};
      if n in am {
        var c := CompareGroup(am[n], bm[n]);
        if c.Some? {
          chg := chg[n := c.value];
        }
      }
    }
  }

  /** providersDiff and modExtsDiff. */
  method DiffGroups(a: seq<GroupSpec>, b: seq<GroupSpec>) returns (out: GroupsDiff)
    ensures out == GroupsDiffOf(ByName(a, GroupName), ByName(b, GroupName))
  {
    var am := IndexByName(a, GroupName);
    var bm := IndexByName(b, GroupName);
    ByNameKeys(a, GroupName);
    var chg := ChangedGroups(am, bm);
    var added := MissingNames(bm.Keys, am.Keys);
    var removed := MissingNames(am.Keys, bm.Keys);
    var changed := SortedRecords(chg, ChangedGroupName);
    out := GroupsDiff(added, removed, changed);
  }

  /** namesDiff, and hermDiff without its nil result. */
  method DiffNames(a: seq<string>, b: seq<string>) returns (out: NamesDiff)
    ensures out == NamesDiffOf(AsSet(a), AsSet(b))
  {
    var am := SetOf(a);
    var bm := SetOf(b);
    var added := MissingNames(bm, am);
    var removed := MissingNames(am, bm);
    out := NamesDiff(added, removed);
  }

  /** The names on both sides whose records differ, over the keys of the newer side. */
  method ChangedDeps(am: map<string, ModuleKey>, bm: map<string, ModuleKey>) returns (chg: map<string, ChangedDep>)
    ensures chg == DepChanges(am, bm)
  {
    chg := map[];
    var todo := bm.Keys;
    while todo != {}
      invariant todo <= bm.Keys
      invariant forall n | n in chg :: n in bm && n !in todo
      invariant forall n | n in bm && n !in todo :: n in chg <==> n in DepChanges(am, bm)
      invariant forall n | n in chg :: n in DepChanges(am, bm) && chg[n] == DepChanges(am, bm)[n]
      decreases todo
    {
      var n :| n in todo;
      todo := todo - {n};
      if n in am && am[n].version != bm[n].version {
        chg := chg[n := ChangedDep(n, am[n].version, bm[n].version)];
      }
    }
  }

  method DiffDeps(a: seq<ModuleKey>, b: seq<ModuleKey>) returns (out: DepsDiff)
    ensures out == DepsDiffOf(DepsOf(a), DepsOf(b))
  {
    var am := IndexByName(a, KeyName);
    var bm := IndexByName(b, KeyName);
    ByNameKeys(a, KeyName);
    ByNameKeys(b, KeyName);
    var chg := ChangedDeps(am, bm);
    var added := SortedRecords(bm - am.Keys, KeyName);
    var removed := SortedRecords(am - bm.Keys, KeyName);
    var changed := SortedRecords(chg, DepName);
    out := DepsDiff(added, removed, changed);
  }

  method FilterPublicRules(rs: seq<RuleSpec>) returns (out: seq<RuleSpec>)
    ensures out == PublicRules(rs)
  {
    out := [];
    for i := 0 to |rs|
      invariant out == PublicRules(rs[..i])
    {
      assert rs[..i + 1][..i] == rs[..i];
      if !rs[i].isPrivate && |rs[i].name| > 0 && rs[i].name[0] != '_' {
        out := out + [rs[i]];
      }
    }
    assert rs[..|rs|] == rs;
  }

  method FilterPublicGroups(gs: seq<GroupSpec>) returns (out: seq<GroupSpec>)
    ensures out == PublicGroups(gs)
  {
    out := [];
    for i := 0 to |gs|
      invariant out == PublicGroups(gs[..i])
    {
      assert gs[..i + 1][..i] == gs[..i];
      if !gs[i].isPrivate && |gs[i].name| > 0 && gs[i].name[0] != '_' {
        out := out + [gs[i]];
      }
    }
    assert gs[..|gs|] == gs;
  }

  method FilterPublicNames(ns: seq<NameSpec>, byMark: bool) returns (out: seq<string>)
    ensures out == PublicNames(ns, byMark)
  {
    out := [];
    for i := 0 to |ns|
      invariant out == PublicNames(ns[..i], byMark)
    {
      assert ns[..i + 1][..i] == ns[..i];
      if !(byMark && ns[i].isPrivate) && |ns[i].name| > 0 && ns[i].name[0] != '_' {
        out := out + [ns[i].name];
      }
    }
    assert ns[..|ns|] == ns;
  }

  method DiffRuleSpecs(a: seq<RuleSpec>, b: seq<RuleSpec>) returns (out: RulesDiff)
    ensures out == RulesDiffOf(RulesOf(a), RulesOf(b))
  {
    var pa := FilterPublicRules(a);
    var pb := FilterPublicRules(b);
    out := DiffRules(pa, pb);
  }

  method DiffGroupSpecs(a: seq<GroupSpec>, b: seq<GroupSpec>) returns (out: GroupsDiff)
    ensures out == GroupsDiffOf(GroupsOf(a), GroupsOf(b))
  {
    var pa := FilterPublicGroups(a);
    var pb := FilterPublicGroups(b);
    out := DiffGroups(pa, pb);
  }

  method DiffNameSpecs(a: seq<NameSpec>, b: seq<NameSpec>, byMark: bool) returns (out: NamesDiff)
    ensures out == NamesDiffOf(NamesOf(a, byMark), NamesOf(b, byMark))
  {
    var pa := FilterPublicNames(a, byMark);
    var pb := FilterPublicNames(b, byMark);
    out := DiffNames(pa, pb);
  }

  /** Compute, up to the Breaking field: one result, however the maps are walked. */
  method Compute(from: ModuleReport, to: ModuleReport) returns (d: Diff)
    ensures d == DiffOf(from, to)
  {
    var compat := None;
    if from.compatibilityLevel != to.compatibilityLevel {
      compat := Some(CompatChange(from.compatibilityLevel, to.compatibilityLevel));
    }
    var herm := None;
    var hd := DiffNames(from.hermeticity, to.hermeticity);
    NonEmptyListing(hd.added, AsSet(to.hermeticity) - AsSet(from.hermeticity));
    NonEmptyListing(hd.removed, AsSet(from.hermeticity) - AsSet(to.hermeticity));
    if !(|hd.added| == 0 && |hd.removed| == 0) {
      herm := Some(hd);
    } else {
      assert AsSet(from.hermeticity) == AsSet(to.hermeticity);
    }
    var deps := DiffDeps(from.bazelDeps, to.bazelDeps);
    var rules := DiffRuleSpecs(from.rules, to.rules);
    var providers := DiffGroupSpecs(from.providers, to.providers);
    var macros := DiffNameSpecs(from.macros, to.macros, false);
    var aspects := DiffNameSpecs(from.aspects, to.aspects, true);
    var toolchains := DiffNameSpecs(from.toolchains, to.toolchains, false);
    var repoRules := DiffRuleSpecs(from.repositoryRules, to.repositoryRules);
    var exts := DiffGroupSpecs(from.moduleExtensions, to.moduleExtensions);
    d := Diff(to.name, from.version, to.version, compat, herm, deps, rules, providers, macros, aspects, toolchains, repoRules, exts);
  }

  // ----- Swapping the two sides -----

  function SwapNames(d: NamesDiff): NamesDiff {
    NamesDiff(d.removed, d.added)
  }

  function SwapAttr(c: AttrChange): AttrChange {
    AttrChange(c.name, c.toType, c.fromType, c.toDefault, c.fromDefault, c.toMandatory, c.fromMandatory, c.mandatoryFlip)
  }

  function SwapRule(c: ChangedRule): ChangedRule {
    ChangedRule(c.name, c.attrsRem, c.attrsAdd, Mapped(c.attrsChg, SwapAttr))
  }

  function SwapGroup(c: ChangedGroup): ChangedGroup {
    ChangedGroup(c.name, c.removed, c.added)
  }

  function SwapDep(c: ChangedDep): ChangedDep {
    ChangedDep(c.name, c.toVersion, c.fromVersion)
  }

  function SwapRules(d: RulesDiff): RulesDiff {
    RulesDiff(d.removed, d.added, Mapped(d.changed, SwapRule))
  }

  function SwapGroups(d: GroupsDiff): GroupsDiff {
    GroupsDiff(d.removed, d.added, Mapped(d.changed, SwapGroup))
  }

  function SwapDeps(d: DepsDiff): DepsDiff {
    DepsDiff(d.removed, d.added, Mapped(d.changed, SwapDep))
  }

  /** Records of two maps with the same names, related by f, are listed in step. */
  lemma InOrderMapped<T, U>(m: map<string, T>, n: map<string, U>, f: T -> U)
    requires m.Keys == n.Keys && forall k | k in m :: n[k] == f(m[k])
    ensures InOrder(n) == Mapped(InOrder(m), f)
  {
    assert Listing(m.Keys) == Listing(n.Keys);
  }

  lemma SwapRuleChange(a: RuleSpec, b: RuleSpec)
    requires a.name == b.name
    ensures RuleChangeOf(b, a) == match RuleChangeOf(a, b) case None => None case Some(c) => Some(SwapRule(c))
  {
    ByNameKeys(a.attrs, AttrName);
    ByNameKeys(b.attrs, AttrName);
    var am, bm := AttrsOf(a), AttrsOf(b);
    assert AttrChanges(am, bm).Keys == AttrChanges(bm, am).Keys;
    InOrderMapped(AttrChanges(am, bm), AttrChanges(bm, am), SwapAttr);
    assert AttrChanges(am, bm) == map[] <==> AttrChanges(am, bm).Keys == {};
    assert AttrChanges(bm, am) == map[] <==> AttrChanges(bm, am).Keys == {};
  }

  lemma SwapRulesDiff(a: Rules, b: Rules)
    requires (forall n | n in a :: a[n].name == n) && (forall n | n in b :: b[n].name == n)
    ensures RulesDiffOf(b, a) == SwapRules(RulesDiffOf(a, b))
  {
    var m, m' := RuleChanges(a, b), RuleChanges(b, a);
    forall n | n in a && n in b
      ensures n in m' <==> n in m
      ensures n in m ==> m'[n] == SwapRule(m[n])
    {
      SwapRuleChange(a[n], b[n]);
    }
    assert m.Keys == m'.Keys;
    InOrderMapped(m, m', SwapRule);
  }

  lemma SwapGroupsDiff(a: Groups, b: Groups)
    requires (forall n | n in a :: a[n].name == n) && (forall n | n in b :: b[n].name == n)
    ensures GroupsDiffOf(b, a) == SwapGroups(GroupsDiffOf(a, b))
  {
    var m, m' := GroupChanges(a, b), GroupChanges(b, a);
    assert m.Keys == m'.Keys;
    InOrderMapped(m, m', SwapGroup);
  }

  lemma SwapDepsDiff(a: Deps, b: Deps)
    ensures DepsDiffOf(b, a) == SwapDeps(DepsDiffOf(a, b))
  {
    var m, m' := DepChanges(a, b), DepChanges(b, a);
    assert m.Keys == m'.Keys;
    InOrderMapped(m, m', SwapDep);
  }

  /** Swapping the sides swaps added with removed and from with to, and changes nothing else;
      only the name is always taken from the newer side. */
  lemma SwapDiff(from: ModuleReport, to: ModuleReport)
    ensures var d := DiffOf(from, to);
            DiffOf(to, from) == Diff(
              from.name, d.toVersion, d.fromVersion,
              match d.compatibilityLevel case None => None case Some(c) => Some(CompatChange(c.toLevel, c.fromLevel)),
              match d.hermeticity case None => None case Some(h) => Some(SwapNames(h)),
              SwapDeps(d.bazelDeps), SwapRules(d.rules), SwapGroups(d.providers),
              SwapNames(d.macros), SwapNames(d.aspects), SwapNames(d.toolchains),
              SwapRules(d.repositoryRules), SwapGroups(d.moduleExtensions))
  {
    SwapDepsDiff(DepsOf(from.bazelDeps), DepsOf(to.bazelDeps));
    NamedRules(from.rules);
    NamedRules(to.rules);
    SwapRulesDiff(RulesOf(from.rules), RulesOf(to.rules));
    NamedRules(from.repositoryRules);
    NamedRules(to.repositoryRules);
    SwapRulesDiff(RulesOf(from.repositoryRules), RulesOf(to.repositoryRules));
    NamedGroups(from.providers);
    NamedGroups(to.providers);
    SwapGroupsDiff(GroupsOf(from.providers), GroupsOf(to.providers));
    NamedGroups(from.moduleExtensions);
    NamedGroups(to.moduleExtensions);
    SwapGroupsDiff(GroupsOf(from.moduleExtensions), GroupsOf(to.moduleExtensions));
  }

  lemma NamedRules(rs: seq<RuleSpec>)
    ensures forall n | n in RulesOf(rs) :: RulesOf(rs)[n].name == n
  {
    ByNameKeys(PublicRules(rs), RuleName);
  }

  lemma NamedGroups(gs: seq<GroupSpec>)
    ensures forall n | n in GroupsOf(gs) :: GroupsOf(gs)[n].name == n
  {
    ByNameKeys(PublicGroups(gs), GroupName);
  }

  // ----- Patching -----

  /** One attribute change applied: an unchanged type or default has equal ends. */
  function PatchedAttr(a: AttrSpec, c: AttrChange): AttrSpec {
    AttrSpec(
      a.name,
      if c.fromType != c.toType then c.toType else a.typ,
      if c.fromDefault != c.toDefault then c.toDefault else a.default,
      if c.mandatoryFlip then c.toMandatory else a.mandatory)
  }

  ghost function Patched(a: Attrs, c: ChangedRule): Attrs {
    var chg := ByName(c.attrsChg, ChangedAttrName);
    var kept := map n | n in a && n !in ByName(c.attrsRem, AttrName) :: if n in chg then PatchedAttr(a[n], chg[n]) else a[n];
    kept + ByName(c.attrsAdd, AttrName)
  }

  /** Indexing the listing of a map by name gives the map back. */
  lemma {:induction false} ByNameOfRecords<T(!new)>(s: seq<T>, name: T -> string, m: map<string, T>)
    requires forall x | x in s :: name(x) in m && m[name(x)] == x
    ensures forall n :: n in ByName(s, name) <==> exists x :: x in s && name(x) == n
    ensures forall n | n in ByName(s, name) :: n in m && ByName(s, name)[n] == m[n]
  {
    if s != [] {
      var k := |s| - 1;
      ByNameOfRecords(s[..k], name, m);
      assert forall x :: x in s <==> x in s[..k] || x == s[k];
    }
  }

  lemma ByNameInOrder<T(!new)>(name: T -> string, m: map<string, T>)
    requires forall k | k in m :: name(m[k]) == k
    ensures ByName(InOrder(m), name) == m
  {
    var s := InOrder(m);
    forall x
      ensures x in s <==> exists k :: k in m && m[k] == x
    {
      InOrderElements(m, x);
    }
    ByNameOfRecords(s, name, m);
    forall k | k in m
      ensures k in ByName(s, name)
    {
      assert m[k] in s && name(m[k]) == k;
    }
  }

  lemma PatchedAttrIsNew(a: AttrSpec, b: AttrSpec)
    requires a.name == b.name
    ensures AttrChangeOf(a, b).None? ==> a == b
    ensures AttrChangeOf(a, b).Some? ==> PatchedAttr(a, AttrChangeOf(a, b).value) == b
  {
  }

  lemma AttrPatches(am: Attrs, bm: Attrs, n: string)
    requires n in am && n in bm && am[n].name == n && bm[n].name == n
    ensures AttrChangeOf(am[n], bm[n]).None? <==> am[n] == bm[n]
    ensures AttrChangeOf(am[n], bm[n]).Some? ==> PatchedAttr(am[n], AttrChangeOf(am[n], bm[n]).value) == bm[n]
  {
    PatchedAttrIsNew(am[n], bm[n]);
  }

  ghost predicate WellNamed(m: Attrs) {
    forall n | n in m :: m[n].name == n
  }

  lemma PatchedMaps(am: Attrs, bm: Attrs, c: ChangedRule)
    requires WellNamed(am) && WellNamed(bm)
    requires c.attrsAdd == InOrder(bm - am.Keys) && c.attrsRem == InOrder(am - bm.Keys) && c.attrsChg == InOrder(AttrChanges(am, bm))
    ensures Patched(am, c) == bm
  {
    ByNameInOrder(AttrName, bm - am.Keys);
    ByNameInOrder(AttrName, am - bm.Keys);
    ByNameInOrder(ChangedAttrName, AttrChanges(am, bm));
    var r := Patched(am, c);
    forall n
      ensures n in r <==> n in bm
      ensures n in bm ==> r[n] == bm[n]
    {
      if n in am && n in bm {
        AttrPatches(am, bm, n);
      }
    }
  }

  /** A ChangedRule is a patch: applied to the old attributes it gives the new ones, and no
      ChangedRule means that the attributes are the same. */
  lemma PatchGivesNew(a: RuleSpec, b: RuleSpec)
    ensures RuleChangeOf(a, b).None? <==> AttrsOf(a) == AttrsOf(b)
    ensures RuleChangeOf(a, b).Some? ==> Patched(AttrsOf(a), RuleChangeOf(a, b).value) == AttrsOf(b)
  {
    var am, bm := AttrsOf(a), AttrsOf(b);
    ByNameKeys(a.attrs, AttrName);
    ByNameKeys(b.attrs, AttrName);
    forall n | n in am && n in bm
      ensures AttrChangeOf(am[n], bm[n]).None? <==> am[n] == bm[n]
    {
      AttrPatches(am, bm, n);
    }
    SameAttrsMeansEqual(am, bm);
    if !SameAttrs(am, bm) {
      PatchedMaps(am, bm, RuleChangeOf(a, b).value);
    }
  }

  lemma SameAttrsMeansEqual(am: Attrs, bm: Attrs)
    requires forall n | n in am && n in bm :: AttrChangeOf(am[n], bm[n]).None? <==> am[n] == bm[n]
    ensures SameAttrs(am, bm) <==> am == bm
  {
    if SameAttrs(am, bm) {
      forall n
        ensures n in am <==> n in bm
        ensures n in am ==> am[n] == bm[n]
      {
        assert n in bm - am.Keys <==> n in bm && n !in am;
        assert n in am - bm.Keys <==> n in am && n !in bm;
        assert n in AttrChanges(am, bm) <==> n in am && n in bm && am[n] != bm[n];
      }
    }
  }
}
