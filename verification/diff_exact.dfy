/** What the structural diff and its verdict say, in the fields of the two reports: on which side a
    name is, which entries count, and in what order findings come (internal/modulediff). */
module DiffExact {
  import opened Ordering
  import opened ModuleDiff
  import opened Breaking
  import opened Wrappers

  // ----- Which entries count -----

  predicate Shown(name: string) {
    name != "" && name[0] != '_'
  }

  lemma {:induction false} PublicRulesExact(rs: seq<RuleSpec>, r: RuleSpec)
    ensures r in PublicRules(rs) <==> r in rs && !r.isPrivate && r.name != "" && r.name[0] != '_'
  {
    if rs != [] {
      PublicRulesExact(rs[..|rs| - 1], r);
      assert r in rs <==> r in rs[..|rs| - 1] || r == rs[|rs| - 1];
    }
  }

  lemma {:induction false} PublicGroupsExact(gs: seq<GroupSpec>, g: GroupSpec)
    ensures g in PublicGroups(gs) <==> g in gs && !g.isPrivate && g.name != "" && g.name[0] != '_'
  {
    if gs != [] {
      PublicGroupsExact(gs[..|gs| - 1], g);
      assert g in gs <==> g in gs[..|gs| - 1] || g == gs[|gs| - 1];
    }
  }

  lemma {:induction false} PublicNamesExact(ns: seq<NameSpec>, byMark: bool, n: string)
    ensures n in PublicNames(ns, byMark) <==>
              exists x :: x in ns && x.name == n && !(byMark && x.isPrivate) && n != "" && n[0] != '_'
  {
    if ns != [] {
      PublicNamesExact(ns[..|ns| - 1], byMark, n);
      assert forall x :: x in ns <==> x in ns[..|ns| - 1] || x == ns[|ns| - 1];
    }
  }

  /** Of several entries with one name the last one counts. */
  lemma {:induction false} LastCounts<T(!new)>(s: seq<T>, name: T -> string, i: nat)
    requires i < |s| && forall j | i < j < |s| :: name(s[j]) != name(s[i])
    ensures name(s[i]) in ByName(s, name) && ByName(s, name)[name(s[i])] == s[i]
  {
    if i < |s| - 1 {
      LastCounts(s[..|s| - 1], name, i);
    }
  }

  lemma {:induction false} NamesAll<T(!new)>(s: seq<T>, name: T -> string, n: string)
    ensures n in ByName(s, name) <==> exists x :: x in s && name(x) == n
  {
    if s != [] {
      NamesAll(s[..|s| - 1], name, n);
      assert forall x :: x in s <==> x in s[..|s| - 1] || x == s[|s| - 1];
    }
  }

  // ----- Sides -----

  /** Added is what only the second side has, removed what only the first has. */
  lemma NamesSides(a: set<string>, b: set<string>, n: string)
    ensures n in NamesDiffOf(a, b).added <==> n in b && n !in a
    ensures n in NamesDiffOf(a, b).removed <==> n in a && n !in b
  {
  }

  lemma DepsSides(a: Deps, b: Deps, n: string)
    requires (forall k | k in a :: a[k].name == k) && (forall k | k in b :: b[k].name == k)
    ensures forall k :: k in DepsDiffOf(a, b).added <==> k.name in b && b[k.name] == k && k.name !in a
    ensures forall k :: k in DepsDiffOf(a, b).removed <==> k.name in a && a[k.name] == k && k.name !in b
    ensures forall c :: c in DepsDiffOf(a, b).changed <==>
                          && c.name in a && c.name in b && a[c.name].version != b[c.name].version
                          && c.fromVersion == a[c.name].version && c.toVersion == b[c.name].version
  {
    forall k
      ensures k in DepsDiffOf(a, b).added <==> k.name in b && b[k.name] == k && k.name !in a
      ensures k in DepsDiffOf(a, b).removed <==> k.name in a && a[k.name] == k && k.name !in b
    {
      OnlyIn(b, a, k);
      OnlyIn(a, b, k);
    }
    forall c
      ensures c in DepsDiffOf(a, b).changed <==>
                && c.name in a && c.name in b && a[c.name].version != b[c.name].version
                && c.fromVersion == a[c.name].version && c.toVersion == b[c.name].version
    {
      DepChangeExact(a, b, c);
    }
  }

  lemma OnlyIn(a: Deps, b: Deps, k: ModuleKey)
    requires forall n | n in a :: a[n].name == n
    ensures k in InOrder(a - b.Keys) <==> k.name in a && a[k.name] == k && k.name !in b
  {
    var m := a - b.Keys;
    InOrderElements(m, k);
    if k.name in m {
      assert m[k.name] == a[k.name];
    }
  }

  lemma DepChangeExact(a: Deps, b: Deps, c: ChangedDep)
    ensures c in InOrder(DepChanges(a, b)) <==>
              && c.name in a && c.name in b && a[c.name].version != b[c.name].version
              && c.fromVersion == a[c.name].version && c.toVersion == b[c.name].version
  {
    var m := DepChanges(a, b);
    InOrderElements(m, c);
    if c.name in m {
      assert m[c.name] == ChangedDep(c.name, a[c.name].version, b[c.name].version);
    }
  }

  lemma GroupsSides(a: Groups, b: Groups, n: string)
    requires (forall k | k in a :: a[k].name == k) && (forall k | k in b :: b[k].name == k)
    ensures n in GroupsDiffOf(a, b).added <==> n in b && n !in a
    ensures n in GroupsDiffOf(a, b).removed <==> n in a && n !in b
    ensures forall c | c in GroupsDiffOf(a, b).changed ::
              && c.name in a && c.name in b
              && (forall x :: x in c.added <==> x in b[c.name].members && x !in a[c.name].members)
              && (forall x :: x in c.removed <==> x in a[c.name].members && x !in b[c.name].members)
    ensures n in a && n in b ==>
              ((exists c :: c in GroupsDiffOf(a, b).changed && c.name == n) <==> exists x :: (x in a[n].members) != (x in b[n].members))
  {
    var m := GroupChanges(a, b);
    forall c | c in InOrder(m)
      ensures c.name in a && c.name in b && GroupChangeOf(a[c.name], b[c.name]) == Some(c)
    {
      InOrderElements(m, c);
      var k :| k in m && m[k] == c;
      assert GroupChangeOf(a[k], b[k]) == Some(c) && c.name == k;
    }
    if n in a && n in b {
      SetsDiffer(a[n].members, b[n].members);
      if n in m {
        InOrderElements(m, m[n]);
        assert m[n].name == n;
      }
    }
  }

  lemma SetsDiffer(a: seq<string>, b: seq<string>)
    ensures AsSet(a) != AsSet(b) <==> exists x :: (x in a) != (x in b)
  {
    if forall x :: x in a <==> x in b {
      assert forall x :: x in AsSet(a) <==> x in AsSet(b);
    }
    if x :| (x in a) != (x in b) {
      assert (x in AsSet(a)) != (x in AsSet(b));
    }
  }

  /** An attribute change: none when type, default and the mandatory mark agree; what agrees is left out
      of it. */
  lemma AttrChangeExact(a: AttrSpec, b: AttrSpec)
    ensures AttrChangeOf(a, b) == None <==> a.typ == b.typ && a.default == b.default && a.mandatory == b.mandatory
    ensures AttrChangeOf(a, b).Some? ==>
              var c := AttrChangeOf(a, b).value;
              && c.name == a.name
              && (if a.typ == b.typ then c.fromType == c.toType == "" else c.fromType == a.typ && c.toType == b.typ)
              && (if a.default == b.default then c.fromDefault == c.toDefault == "" else c.fromDefault == a.default && c.toDefault == b.default)
              && (c.mandatoryFlip <==> a.mandatory != b.mandatory)
              && (c.fromMandatory <==> a.mandatory && !b.mandatory) && (c.toMandatory <==> b.mandatory && !a.mandatory)
  {
  }

  lemma RulesSides(a: Rules, b: Rules, n: string)
    requires (forall k | k in a :: a[k].name == k) && (forall k | k in b :: b[k].name == k)
    ensures n in RulesDiffOf(a, b).added <==> n in b && n !in a
    ensures n in RulesDiffOf(a, b).removed <==> n in a && n !in b
    ensures forall c | c in RulesDiffOf(a, b).changed :: c.name in a && c.name in b && RuleChangeOf(a[c.name], b[c.name]) == Some(c)
    ensures n in a && n in b ==>
              ((exists c :: c in RulesDiffOf(a, b).changed && c.name == n) <==> AttrsOf(a[n]) != AttrsOf(b[n]))
  {
    var m := RuleChanges(a, b);
    forall c | c in InOrder(m)
      ensures c.name in a && c.name in b && RuleChangeOf(a[c.name], b[c.name]) == Some(c)
    {
      InOrderElements(m, c);
      var k :| k in m && m[k] == c;
      assert RuleChangeOf(a[k], b[k]) == Some(c) && c.name == k;
    }
    if n in a && n in b {
      PatchGivesNew(a[n], b[n]);
      if n in m {
        InOrderElements(m, m[n]);
        assert m[n].name == n;
      }
    }
  }

  /** In a changed rule, the attributes only the second side has, those only the first has, and the
      changes of those both have. */
  lemma RuleSides(a: RuleSpec, b: RuleSpec, x: AttrSpec)
    requires RuleChangeOf(a, b).Some?
    ensures var c, am, bm := RuleChangeOf(a, b).value, AttrsOf(a), AttrsOf(b);
            && c.name == a.name
            && (x in c.attrsAdd <==> x.name in bm && bm[x.name] == x && x.name !in am)
            && (x in c.attrsRem <==> x.name in am && am[x.name] == x && x.name !in bm)
            && (forall y :: y in c.attrsChg <==> y.name in am && y.name in bm && AttrChangeOf(am[y.name], bm[y.name]) == Some(y))
  {
    var am, bm := AttrsOf(a), AttrsOf(b);
    ByNameKeys(a.attrs, AttrName);
    ByNameKeys(b.attrs, AttrName);
    AttrOnlyIn(bm, am, x);
    AttrOnlyIn(am, bm, x);
    forall y
      ensures y in InOrder(AttrChanges(am, bm)) <==> y.name in am && y.name in bm && AttrChangeOf(am[y.name], bm[y.name]) == Some(y)
    {
      InOrderElements(AttrChanges(am, bm), y);
      if y.name in AttrChanges(am, bm) {
        assert AttrChanges(am, bm)[y.name] == AttrChangeOf(am[y.name], bm[y.name]).value;
      }
    }
  }

  lemma AttrOnlyIn(a: Attrs, b: Attrs, x: AttrSpec)
    requires forall n | n in a :: a[n].name == n
    ensures x in InOrder(a - b.Keys) <==> x.name in a && a[x.name] == x && x.name !in b
  {
    var m := a - b.Keys;
    InOrderElements(m, x);
    if x.name in m {
      assert m[x.name] == a[x.name];
    }
  }

  // ----- The report -----

  /** Which list of the reports each section is about. */
  lemma SectionsExact(from: ModuleReport, to: ModuleReport)
    ensures var d := DiffOf(from, to);
            && d.moduleName == to.name && d.fromVersion == from.version && d.toVersion == to.version
            && d.compatibilityLevel == (if from.compatibilityLevel == to.compatibilityLevel then None
                                        else Some(CompatChange(from.compatibilityLevel, to.compatibilityLevel)))
            && d.bazelDeps == DepsDiffOf(DepsOf(from.bazelDeps), DepsOf(to.bazelDeps))
            && d.rules == RulesDiffOf(RulesOf(from.rules), RulesOf(to.rules))
            && d.repositoryRules == RulesDiffOf(RulesOf(from.repositoryRules), RulesOf(to.repositoryRules))
            && d.providers == GroupsDiffOf(GroupsOf(from.providers), GroupsOf(to.providers))
            && d.moduleExtensions == GroupsDiffOf(GroupsOf(from.moduleExtensions), GroupsOf(to.moduleExtensions))
  {
  }

  /** Hermeticity traits, macros, aspects and toolchains, name by name; only aspects go by their mark. */
  lemma NameSections(from: ModuleReport, to: ModuleReport, n: string)
    ensures var d := DiffOf(from, to);
            && (d.hermeticity == None <==> forall x :: x in from.hermeticity <==> x in to.hermeticity)
            && (d.hermeticity.Some? ==> (n in d.hermeticity.value.added <==> n in to.hermeticity && n !in from.hermeticity))
            && (d.hermeticity.Some? ==> (n in d.hermeticity.value.removed <==> n in from.hermeticity && n !in to.hermeticity))
            && (n in d.macros.added <==> Named(to.macros, n) && !Named(from.macros, n))
            && (n in d.macros.removed <==> Named(from.macros, n) && !Named(to.macros, n))
            && (n in d.toolchains.added <==> Named(to.toolchains, n) && !Named(from.toolchains, n))
            && (n in d.toolchains.removed <==> Named(from.toolchains, n) && !Named(to.toolchains, n))
            && (n in d.aspects.added <==> Marked(to.aspects, n) && !Marked(from.aspects, n))
            && (n in d.aspects.removed <==> Marked(from.aspects, n) && !Marked(to.aspects, n))
  {
    SetsDiffer(from.hermeticity, to.hermeticity);
    NamesSides(AsSet(from.hermeticity), AsSet(to.hermeticity), n);
    NamedExact(from, to, n);
  }

  predicate Named(ns: seq<NameSpec>, n: string) {
    Shown(n) && exists x :: x in ns && x.name == n
  }

  predicate Marked(ns: seq<NameSpec>, n: string) {
    Shown(n) && exists x :: x in ns && x.name == n && !x.isPrivate
  }

  lemma NamedExact(from: ModuleReport, to: ModuleReport, n: string)
    ensures n in NamesOf(from.macros, false) <==> Named(from.macros, n)
    ensures n in NamesOf(to.macros, false) <==> Named(to.macros, n)
    ensures n in NamesOf(from.toolchains, false) <==> Named(from.toolchains, n)
    ensures n in NamesOf(to.toolchains, false) <==> Named(to.toolchains, n)
    ensures n in NamesOf(from.aspects, true) <==> Marked(from.aspects, n)
    ensures n in NamesOf(to.aspects, true) <==> Marked(to.aspects, n)
  {
    PublicNamesExact(from.macros, false, n);
    PublicNamesExact(to.macros, false, n);
    PublicNamesExact(from.toolchains, false, n);
    PublicNamesExact(to.toolchains, false, n);
    PublicNamesExact(from.aspects, true, n);
    PublicNamesExact(to.aspects, true, n);
  }

  // ----- Findings -----

  predicate Gone<T>(a: map<string, T>, b: map<string, T>, n: string) {
    n in a && n !in b
  }

  predicate AttrGone(a: Rules, b: Rules, rule: string, attr: string) {
    rule in a && rule in b && Gone(AttrsOf(a[rule]), AttrsOf(b[rule]), attr)
  }

  predicate AttrFlipped(a: Rules, b: Rules, rule: string, attr: string) {
    && rule in a && rule in b && attr in AttrsOf(a[rule]) && attr in AttrsOf(b[rule])
    && !AttrsOf(a[rule])[attr].mandatory && AttrsOf(b[rule])[attr].mandatory
  }

  predicate MemberGone(a: Groups, b: Groups, group: string, member: string) {
    group in a && group in b && member in a[group].members && member !in b[group].members
  }

  /** The findings of a report, kind by kind. */
  lemma FindingsByKind(from: ModuleReport, to: ModuleReport, s: string, d: string)
    ensures var found := SortFindings(Findings(DiffOf(from, to)));
            && (Finding(CompatLevelShift, s, d) in found <==> s == to.name && d == "" && from.compatibilityLevel != to.compatibilityLevel)
            && (Finding(RuleRemoved, s, d) in found <==> d == "" && Gone(RulesOf(from.rules), RulesOf(to.rules), s))
            && (Finding(RuleAttrRemoved, s, d) in found <==> AttrGone(RulesOf(from.rules), RulesOf(to.rules), s, d))
            && (Finding(RuleAttrNowMandatory, s, d) in found <==> AttrFlipped(RulesOf(from.rules), RulesOf(to.rules), s, d))
            && (Finding(RepoRuleRemoved, s, d) in found <==> d == "" && Gone(RulesOf(from.repositoryRules), RulesOf(to.repositoryRules), s))
            && (Finding(RepoRuleAttrRemoved, s, d) in found <==> AttrGone(RulesOf(from.repositoryRules), RulesOf(to.repositoryRules), s, d))
            && (Finding(RepoRuleAttrNowMandatory, s, d) in found <==> AttrFlipped(RulesOf(from.repositoryRules), RulesOf(to.repositoryRules), s, d))
            && (Finding(ProviderRemoved, s, d) in found <==> d == "" && Gone(GroupsOf(from.providers), GroupsOf(to.providers), s))
            && (Finding(ProviderFieldRemoved, s, d) in found <==> MemberGone(GroupsOf(from.providers), GroupsOf(to.providers), s, d))
            && (Finding(ModuleExtensionRemoved, s, d) in found <==> d == "" && Gone(GroupsOf(from.moduleExtensions), GroupsOf(to.moduleExtensions), s))
            && (Finding(ModuleExtensionTagRemoved, s, d) in found <==> MemberGone(GroupsOf(from.moduleExtensions), GroupsOf(to.moduleExtensions), s, d))
  {
    forall k: Kind
      ensures Finding(k, s, d) in SortFindings(Findings(DiffOf(from, to))) <==> Broken(from, to, Finding(k, s, d))
    {
      FindingsExact(from, to, Finding(k, s, d));
    }
    BrokenOnly(from, to, Finding(CompatLevelShift, s, d));
    BrokenRules(from, to, s, d);
    BrokenRepoRules(from, to, s, d);
    BrokenProviders(from, to, s, d);
    BrokenExtensions(from, to, s, d);
  }

  lemma RuleBrokenByKind(k: RuleKinds, a: Rules, b: Rules, s: string, d: string)
    requires k.removed != k.attrRemoved && k.removed != k.nowMandatory && k.attrRemoved != k.nowMandatory
    ensures RuleBroken(k, a, b, Finding(k.removed, s, d)) <==> d == "" && Gone(a, b, s)
    ensures RuleBroken(k, a, b, Finding(k.attrRemoved, s, d)) <==> AttrGone(a, b, s, d)
    ensures RuleBroken(k, a, b, Finding(k.nowMandatory, s, d)) <==> AttrFlipped(a, b, s, d)
  {
  }

  lemma RuleBrokenOnly(k: RuleKinds, a: Rules, b: Rules, f: Finding)
    ensures RuleBroken(k, a, b, f) ==> f.kind == k.removed || f.kind == k.attrRemoved || f.kind == k.nowMandatory
  {
  }

  lemma GroupBrokenByKind(removed: Kind, member: Kind, a: Groups, b: Groups, s: string, d: string)
    requires removed != member
    ensures GroupBroken(removed, member, a, b, Finding(removed, s, d)) <==> d == "" && Gone(a, b, s)
    ensures GroupBroken(removed, member, a, b, Finding(member, s, d)) <==> MemberGone(a, b, s, d)
  {
  }

  lemma GroupBrokenOnly(removed: Kind, member: Kind, a: Groups, b: Groups, f: Finding)
    ensures GroupBroken(removed, member, a, b, f) ==> f.kind == removed || f.kind == member
  {
  }

  /** Each kind is about one list of the reports. */
  lemma BrokenOnly(from: ModuleReport, to: ModuleReport, f: Finding)
    ensures f.kind in {RuleRemoved, RuleAttrRemoved, RuleAttrNowMandatory} ==>
              (Broken(from, to, f) <==> RuleBroken(RULE_KINDS, RulesOf(from.rules), RulesOf(to.rules), f))
    ensures f.kind in {RepoRuleRemoved, RepoRuleAttrRemoved, RepoRuleAttrNowMandatory} ==>
              (Broken(from, to, f) <==> RuleBroken(REPO_RULE_KINDS, RulesOf(from.repositoryRules), RulesOf(to.repositoryRules), f))
    ensures f.kind in {ProviderRemoved, ProviderFieldRemoved} ==>
              (Broken(from, to, f) <==> GroupBroken(ProviderRemoved, ProviderFieldRemoved, GroupsOf(from.providers), GroupsOf(to.providers), f))
    ensures f.kind in {ModuleExtensionRemoved, ModuleExtensionTagRemoved} ==>
              (Broken(from, to, f) <==> GroupBroken(ModuleExtensionRemoved, ModuleExtensionTagRemoved, GroupsOf(from.moduleExtensions), GroupsOf(to.moduleExtensions), f))
    ensures f.kind == CompatLevelShift ==>
              (Broken(from, to, f) <==> f == Finding(CompatLevelShift, to.name, "") && from.compatibilityLevel != to.compatibilityLevel)
  {
    RuleBrokenOnly(RULE_KINDS, RulesOf(from.rules), RulesOf(to.rules), f);
    RuleBrokenOnly(REPO_RULE_KINDS, RulesOf(from.repositoryRules), RulesOf(to.repositoryRules), f);
    GroupBrokenOnly(ProviderRemoved, ProviderFieldRemoved, GroupsOf(from.providers), GroupsOf(to.providers), f);
    GroupBrokenOnly(ModuleExtensionRemoved, ModuleExtensionTagRemoved, GroupsOf(from.moduleExtensions), GroupsOf(to.moduleExtensions), f);
  }

  lemma BrokenRules(from: ModuleReport, to: ModuleReport, s: string, d: string)
    ensures Broken(from, to, Finding(RuleRemoved, s, d)) <==> d == "" && Gone(RulesOf(from.rules), RulesOf(to.rules), s)
    ensures Broken(from, to, Finding(RuleAttrRemoved, s, d)) <==> AttrGone(RulesOf(from.rules), RulesOf(to.rules), s, d)
    ensures Broken(from, to, Finding(RuleAttrNowMandatory, s, d)) <==> AttrFlipped(RulesOf(from.rules), RulesOf(to.rules), s, d)
  {
    RuleBrokenByKind(RULE_KINDS, RulesOf(from.rules), RulesOf(to.rules), s, d);
    BrokenOnly(from, to, Finding(RuleRemoved, s, d));
    BrokenOnly(from, to, Finding(RuleAttrRemoved, s, d));
    BrokenOnly(from, to, Finding(RuleAttrNowMandatory, s, d));
  }

  lemma BrokenRepoRules(from: ModuleReport, to: ModuleReport, s: string, d: string)
    ensures Broken(from, to, Finding(RepoRuleRemoved, s, d)) <==> d == "" && Gone(RulesOf(from.repositoryRules), RulesOf(to.repositoryRules), s)
    ensures Broken(from, to, Finding(RepoRuleAttrRemoved, s, d)) <==> AttrGone(RulesOf(from.repositoryRules), RulesOf(to.repositoryRules), s, d)
    ensures Broken(from, to, Finding(RepoRuleAttrNowMandatory, s, d)) <==> AttrFlipped(RulesOf(from.repositoryRules), RulesOf(to.repositoryRules), s, d)
  {
    RuleBrokenByKind(REPO_RULE_KINDS, RulesOf(from.repositoryRules), RulesOf(to.repositoryRules), s, d);
    BrokenOnly(from, to, Finding(RepoRuleRemoved, s, d));
    BrokenOnly(from, to, Finding(RepoRuleAttrRemoved, s, d));
    BrokenOnly(from, to, Finding(RepoRuleAttrNowMandatory, s, d));
  }

  lemma BrokenProviders(from: ModuleReport, to: ModuleReport, s: string, d: string)
    ensures Broken(from, to, Finding(ProviderRemoved, s, d)) <==> d == "" && Gone(GroupsOf(from.providers), GroupsOf(to.providers), s)
    ensures Broken(from, to, Finding(ProviderFieldRemoved, s, d)) <==> MemberGone(GroupsOf(from.providers), GroupsOf(to.providers), s, d)
  {
    GroupBrokenByKind(ProviderRemoved, ProviderFieldRemoved, GroupsOf(from.providers), GroupsOf(to.providers), s, d);
    BrokenOnly(from, to, Finding(ProviderRemoved, s, d));
    BrokenOnly(from, to, Finding(ProviderFieldRemoved, s, d));
  }

  lemma BrokenExtensions(from: ModuleReport, to: ModuleReport, s: string, d: string)
    ensures Broken(from, to, Finding(ModuleExtensionRemoved, s, d)) <==> d == "" && Gone(GroupsOf(from.moduleExtensions), GroupsOf(to.moduleExtensions), s)
    ensures Broken(from, to, Finding(ModuleExtensionTagRemoved, s, d)) <==> MemberGone(GroupsOf(from.moduleExtensions), GroupsOf(to.moduleExtensions), s, d)
  {
    GroupBrokenByKind(ModuleExtensionRemoved, ModuleExtensionTagRemoved, GroupsOf(from.moduleExtensions), GroupsOf(to.moduleExtensions), s, d);
    BrokenOnly(from, to, Finding(ModuleExtensionRemoved, s, d));
    BrokenOnly(from, to, Finding(ModuleExtensionTagRemoved, s, d));
  }

  // ----- Their order -----

  /** The place of a kind in a sorted report. */
  function Rank(k: Kind): nat {
    match k
    case CompatLevelShift => 0
    case ModuleExtensionRemoved => 1
    case ModuleExtensionTagRemoved => 2
    case ProviderFieldRemoved => 3
    case ProviderRemoved => 4
    case RepoRuleAttrNowMandatory => 5
    case RepoRuleAttrRemoved => 6
    case RepoRuleRemoved => 7
    case RuleAttrNowMandatory => 8
    case RuleAttrRemoved => 9
    case RuleRemoved => 10
  }

  lemma {:induction false} BelowAfter(p: string, x: string, y: string)
    ensures Below(p + x, p + y) <==> Below(x, y)
  {
    if p == "" {
      assert p + x == x && p + y == y;
    } else {
      BelowAfter(p[1..], x, y);
      assert (p + x)[1..] == p[1..] + x && (p + y)[1..] == p[1..] + y;
    }
  }

  lemma Apart(p: string, x: string, y: string, s: string, t: string)
    requires s == p + x && t == p + y && x != "" && y != "" && x[0] < y[0]
    ensures Below(s, t)
  {
    BelowAfter(p, x, y);
  }

  function KindAt(n: nat): Kind
    requires n <= 10
    ensures Rank(KindAt(n)) == n
  {
    match n
    case 0 => CompatLevelShift
    case 1 => ModuleExtensionRemoved
    case 2 => ModuleExtensionTagRemoved
    case 3 => ProviderFieldRemoved
    case 4 => ProviderRemoved
    case 5 => RepoRuleAttrNowMandatory
    case 6 => RepoRuleAttrRemoved
    case 7 => RepoRuleRemoved
    case 8 => RuleAttrNowMandatory
    case 9 => RuleAttrRemoved
    case 10 => RuleRemoved
  }

  lemma FirstKinds(n: nat)
    requires 0 <= n < 3
    ensures Below(KindName(KindAt(n)), KindName(KindAt(n + 1)))
  {
    match n
    case 0 => Apart("", "compat_level_shift", "module_extension_removed", "compat_level_shift", "module_extension_removed");
    case 1 => Apart("module_extension_", "removed", "tag_class_removed", "module_extension_removed", "module_extension_tag_class_removed");
    case 2 => Apart("", "module_extension_tag_class_removed", "provider_field_removed", "module_extension_tag_class_removed", "provider_field_removed");
  }

  lemma MiddleKinds(n: nat)
    requires 3 <= n < 6
    ensures Below(KindName(KindAt(n)), KindName(KindAt(n + 1)))
  {
    match n
    case 3 => Apart("provider_", "field_removed", "removed", "provider_field_removed", "provider_removed");
    case 4 => Apart("", "provider_removed", "repo_rule_attr_now_mandatory", "provider_removed", "repo_rule_attr_now_mandatory");
    case 5 => Apart("repo_rule_attr_", "now_mandatory", "removed", "repo_rule_attr_now_mandatory", "repo_rule_attr_removed");
  }

  lemma OtherKinds(n: nat)
    requires 6 <= n < 8
    ensures Below(KindName(KindAt(n)), KindName(KindAt(n + 1)))
  {
    match n
    case 6 => Apart("repo_rule_", "attr_removed", "removed", "repo_rule_attr_removed", "repo_rule_removed");
    case 7 => Apart("r", "epo_rule_removed", "ule_attr_now_mandatory", "repo_rule_removed", "rule_attr_now_mandatory");
  }

  lemma LastKinds(n: nat)
    requires 8 <= n < 10
    ensures Below(KindName(KindAt(n)), KindName(KindAt(n + 1)))
  {
    match n
    case 8 => Apart("rule_attr_", "now_mandatory", "removed", "rule_attr_now_mandatory", "rule_attr_removed");
    case 9 => Apart("rule_", "attr_removed", "removed", "rule_attr_removed", "rule_removed");
  }

  lemma NextKind(n: nat)
    requires n < 10
    ensures Below(KindName(KindAt(n)), KindName(KindAt(n + 1)))
  {
    if n < 3 {
      FirstKinds(n);
    } else if n < 6 {
      MiddleKinds(n);
    } else if n < 8 {
      OtherKinds(n);
    } else {
      LastKinds(n);
    }
  }

  lemma {:induction false} LaterKind(m: nat, n: nat)
    requires m < n <= 10
    ensures Below(KindName(KindAt(m)), KindName(KindAt(n)))
  {
    NextKind(n - 1);
    if m < n - 1 {
      LaterKind(m, n - 1);
      Transitive(KindName(KindAt(m)), KindName(KindAt(n - 1)), KindName(KindAt(n)));
    }
  }

  /** Findings are sorted by the names of their kinds, which are in this order, then by symbol, then by
      detail. */
  lemma ReportOrder(f: Finding, g: Finding)
    ensures Precedes(f, g) <==>
              || Rank(f.kind) < Rank(g.kind)
              || (f.kind == g.kind && Below(f.symbol, g.symbol))
              || (f.kind == g.kind && f.symbol == g.symbol && Below(f.detail, g.detail))
  {
    assert KindAt(Rank(f.kind)) == f.kind && KindAt(Rank(g.kind)) == g.kind;
    Trichotomy(KindName(f.kind), KindName(g.kind));
    Trichotomy(f.symbol, g.symbol);
    if Rank(f.kind) < Rank(g.kind) {
      LaterKind(Rank(f.kind), Rank(g.kind));
    } else if Rank(g.kind) < Rank(f.kind) {
      LaterKind(Rank(g.kind), Rank(f.kind));
    }
  }
}
