/** Which diffs break consumers (internal/modulediff/breaking.go), against a definition of
    "nothing breaks" that looks at the two module surfaces and not at the diff. */
module Breaking {
  import opened Ordering
  import opened ModuleDiff
  import opened Wrappers

  datatype Kind =
    | CompatLevelShift
    | RuleRemoved | RuleAttrRemoved | RuleAttrNowMandatory
    | ProviderRemoved | ProviderFieldRemoved
    | ModuleExtensionRemoved | ModuleExtensionTagRemoved
    | RepoRuleRemoved | RepoRuleAttrRemoved | RepoRuleAttrNowMandatory

  function KindName(k: Kind): string {
    match k
    case CompatLevelShift => "compat_level_shift"
    case RuleRemoved => "rule_removed"
    case RuleAttrRemoved => "rule_attr_removed"
    case RuleAttrNowMandatory => "rule_attr_now_mandatory"
    case ProviderRemoved => "provider_removed"
    case ProviderFieldRemoved => "provider_field_removed"
    case ModuleExtensionRemoved => "module_extension_removed"
    case ModuleExtensionTagRemoved => "module_extension_tag_class_removed"
    case RepoRuleRemoved => "repo_rule_removed"
    case RepoRuleAttrRemoved => "repo_rule_attr_removed"
    case RepoRuleAttrNowMandatory => "repo_rule_attr_now_mandatory"
  }

  /** The prose of a finding (reason, hint, codemod) is a function of these three. */
  datatype Finding = Finding(kind: Kind, symbol: string, detail: string)

  // ----- The findings of a diff, in the order the program appends them -----

  datatype RuleKinds = RuleKinds(removed: Kind, attrRemoved: Kind, nowMandatory: Kind)

  const RULE_KINDS := RuleKinds(RuleRemoved, RuleAttrRemoved, RuleAttrNowMandatory)
  const REPO_RULE_KINDS := RuleKinds(RepoRuleRemoved, RepoRuleAttrRemoved, RepoRuleAttrNowMandatory)

  function NameFindings(kind: Kind, names: seq<string>): seq<Finding> {
    if names == [] then []
    else NameFindings(kind, names[..|names| - 1]) + [Finding(kind, names[|names| - 1], "")]
  }

  function DetailFindings(kind: Kind, symbol: string, details: seq<string>): seq<Finding> {
    if details == [] then []
    else DetailFindings(kind, symbol, details[..|details| - 1]) + [Finding(kind, symbol, details[|details| - 1])]
  }

  predicate NowMandatory(c: AttrChange) {
    c.mandatoryFlip && !c.fromMandatory && c.toMandatory
  }

  function FlippedNames(cs: seq<AttrChange>): seq<string> {
    if cs == [] then []
    else
      var rest, c := FlippedNames(cs[..|cs| - 1]), cs[|cs| - 1];
      if NowMandatory(c) then rest + [c.name] else rest
  }

  function OneRule(k: RuleKinds, c: ChangedRule): seq<Finding> {
    DetailFindings(k.attrRemoved, c.name, Mapped(c.attrsRem, AttrName))
    + DetailFindings(k.nowMandatory, c.name, FlippedNames(c.attrsChg))
  }

  function ChangedRuleFindings(k: RuleKinds, cs: seq<ChangedRule>): seq<Finding> {
    if cs == [] then [] else ChangedRuleFindings(k, cs[..|cs| - 1]) + OneRule(k, cs[|cs| - 1])
  }

  function ChangedGroupFindings(kind: Kind, cs: seq<ChangedGroup>): seq<Finding> {
    if cs == [] then []
    else
      var c := cs[|cs| - 1];
      ChangedGroupFindings(kind, cs[..|cs| - 1]) + DetailFindings(kind, c.name, c.removed)
  }

  function RuleFindings(k: RuleKinds, d: RulesDiff): seq<Finding> {
    NameFindings(k.removed, d.removed) + ChangedRuleFindings(k, d.changed)
  }

  function GroupFindings(removed: Kind, member: Kind, d: GroupsDiff): seq<Finding> {
    NameFindings(removed, d.removed) + ChangedGroupFindings(member, d.changed)
  }

  function Findings(d: Diff): seq<Finding> {
    (if d.compatibilityLevel.Some? then [Finding(CompatLevelShift, d.moduleName, "")] else [])
    + RuleFindings(RULE_KINDS, d.rules)
    + GroupFindings(ProviderRemoved, ProviderFieldRemoved, d.providers)
    + GroupFindings(ModuleExtensionRemoved, ModuleExtensionTagRemoved, d.moduleExtensions)
    + RuleFindings(REPO_RULE_KINDS, d.repositoryRules)
  }

  // ----- The stable sort by kind, symbol, detail -----

  predicate Lex(a: string, b: string, rest: bool) {
    if a != b then Below(a, b) else rest
  }

  predicate Precedes(f: Finding, g: Finding) {
    Lex(KindName(f.kind), KindName(g.kind), Lex(f.symbol, g.symbol, Below(f.detail, g.detail)))
  }

  function InsertFinding(f: Finding, s: seq<Finding>): seq<Finding> {
    if s == [] then [f]
    else if Precedes(s[0], f) then [s[0]] + InsertFinding(f, s[1..])
    else [f] + s
  }

  function SortFindings(s: seq<Finding>): seq<Finding> {
    if s == [] then [] else InsertFinding(s[0], SortFindings(s[1..]))
  }

  /** f may stand before g. */
  predicate NotAfter(f: Finding, g: Finding) {
    !Precedes(g, f)
  }

  ghost predicate InReportOrder(s: seq<Finding>) {
    forall i, j | 0 <= i < j < |s| :: NotAfter(s[i], s[j])
  }

  lemma LexTransitive(a: string, b: string, c: string, ba: bool, cb: bool, ca: bool)
    requires !ba && !cb ==> !ca
    ensures !Lex(b, a, ba) && !Lex(c, b, cb) ==> !Lex(c, a, ca)
  {
    Trichotomy(a, b);
    Trichotomy(b, c);
    Trichotomy(a, c);
    if Below(a, b) && Below(b, c) {
      Transitive(a, b, c);
    }
  }

  lemma NotAfterTransitive(f: Finding, g: Finding, h: Finding)
    requires NotAfter(f, g) && NotAfter(g, h)
    ensures NotAfter(f, h)
  {
    LexTransitive(f.detail, g.detail, h.detail, false, false, false);
    Trichotomy(f.detail, f.detail);
    LexTransitive(f.symbol, g.symbol, h.symbol, Below(g.detail, f.detail), Below(h.detail, g.detail), Below(h.detail, f.detail));
    LexTransitive(KindName(f.kind), KindName(g.kind), KindName(h.kind),
                  Lex(g.symbol, f.symbol, Below(g.detail, f.detail)),
                  Lex(h.symbol, g.symbol, Below(h.detail, g.detail)),
                  Lex(h.symbol, f.symbol, Below(h.detail, f.detail)));
  }

  lemma PrecedesNotAfter(f: Finding, g: Finding)
    requires Precedes(f, g)
    ensures NotAfter(f, g)
  {
    Trichotomy(KindName(f.kind), KindName(g.kind));
    Trichotomy(f.symbol, g.symbol);
    Trichotomy(f.detail, g.detail);
  }

  lemma {:induction false} InsertFindingElements(f: Finding, s: seq<Finding>)
    ensures |InsertFinding(f, s)| == |s| + 1
    ensures forall x :: x in InsertFinding(f, s) <==> x == f || x in s
  {
    if s != [] {
      InsertFindingElements(f, s[1..]);
      assert forall x :: x in s <==> x == s[0] || x in s[1..];
    }
  }

  lemma InFrontOf(f: Finding, s: seq<Finding>)
    requires InReportOrder(s) && forall x | x in s :: NotAfter(f, x)
    ensures InReportOrder([f] + s)
  {
    var r := [f] + s;
    forall i, j | 0 <= i < j < |r|
      ensures NotAfter(r[i], r[j])
    {
      if i == 0 {
        assert r[j] == s[j - 1] && s[j - 1] in s;
      } else {
        assert r[i] == s[i - 1] && r[j] == s[j - 1];
      }
    }
  }

  lemma {:induction false} InsertFindingSorted(f: Finding, s: seq<Finding>)
    requires InReportOrder(s)
    ensures InReportOrder(InsertFinding(f, s))
  {
    if s != [] {
      if Precedes(s[0], f) {
        PrecedesNotAfter(s[0], f);
        InsertFindingSorted(f, s[1..]);
        InsertFindingElements(f, s[1..]);
        InFrontOf(s[0], InsertFinding(f, s[1..]));
      } else {
        forall x | x in s
          ensures NotAfter(f, x)
        {
          var i :| 0 <= i < |s| && s[i] == x;
          if i > 0 {
            NotAfterTransitive(f, s[0], x);
          }
        }
        InFrontOf(f, s);
      }
    }
  }

  /** Sorting changes the order of the findings and nothing else. */
  lemma {:induction false} SortFindingsSorted(s: seq<Finding>)
    ensures InReportOrder(SortFindings(s))
    ensures forall x :: x in SortFindings(s) <==> x in s
    ensures |SortFindings(s)| == |s|
  {
    if s != [] {
      SortFindingsSorted(s[1..]);
      InsertFindingSorted(s[0], SortFindings(s[1..]));
      InsertFindingElements(s[0], SortFindings(s[1..]));
      assert forall x :: x in s <==> x == s[0] || x in s[1..];
    }
  }

  // ----- The program -----

  method AppendNames(out: seq<Finding>, kind: Kind, names: seq<string>) returns (r: seq<Finding>)
    ensures r == out + NameFindings(kind, names)
  {
    r := out;
    for i := 0 to |names|
      invariant r == out + NameFindings(kind, names[..i])
    {
      assert names[..i + 1][..i] == names[..i];
      r := r + [Finding(kind, names[i], "")];
    }
    assert names[..|names|] == names;
  }

  method AppendRule(out: seq<Finding>, k: RuleKinds, c: ChangedRule) returns (r: seq<Finding>)
    ensures r == out + OneRule(k, c)
  {
    r := out;
    var rem := Mapped(c.attrsRem, AttrName);
    for i := 0 to |c.attrsRem|
      invariant r == out + DetailFindings(k.attrRemoved, c.name, rem[..i])
    {
      assert rem[..i + 1][..i] == rem[..i];
      r := r + [Finding(k.attrRemoved, c.name, c.attrsRem[i].name)];
    }
    assert rem[..|rem|] == rem;
    ghost var out1 := r;
    for i := 0 to |c.attrsChg|
      invariant r == out1 + DetailFindings(k.nowMandatory, c.name, FlippedNames(c.attrsChg[..i]))
    {
      assert c.attrsChg[..i + 1][..i] == c.attrsChg[..i];
      var a := c.attrsChg[i];
      if a.mandatoryFlip && !a.fromMandatory && a.toMandatory {
        ghost var names := FlippedNames(c.attrsChg[..i]);
        assert (names + [a.name])[..|names|] == names;
        r := r + [Finding(k.nowMandatory, c.name, a.name)];
      }
    }
    assert c.attrsChg[..|c.attrsChg|] == c.attrsChg;
  }

  method AppendChangedRules(out: seq<Finding>, k: RuleKinds, cs: seq<ChangedRule>) returns (r: seq<Finding>)
    ensures r == out + ChangedRuleFindings(k, cs)
  {
    r := out;
    for i := 0 to |cs|
      invariant r == out + ChangedRuleFindings(k, cs[..i])
    {
      assert cs[..i + 1][..i] == cs[..i];
      r := AppendRule(r, k, cs[i]);
    }
    assert cs[..|cs|] == cs;
  }

  method AppendRules(out: seq<Finding>, k: RuleKinds, d: RulesDiff) returns (r: seq<Finding>)
    ensures r == out + RuleFindings(k, d)
  {
    r := AppendNames(out, k.removed, d.removed);
    r := AppendChangedRules(r, k, d.changed);
  }

  method AppendDetails(out: seq<Finding>, kind: Kind, symbol: string, details: seq<string>) returns (r: seq<Finding>)
    ensures r == out + DetailFindings(kind, symbol, details)
  {
    r := out;
    for j := 0 to |details|
      invariant r == out + DetailFindings(kind, symbol, details[..j])
    {
      assert details[..j + 1][..j] == details[..j];
      r := r + [Finding(kind, symbol, details[j])];
    }
    assert details[..|details|] == details;
  }

  method AppendChangedGroups(out: seq<Finding>, member: Kind, cs: seq<ChangedGroup>) returns (r: seq<Finding>)
    ensures r == out + ChangedGroupFindings(member, cs)
  {
    r := out;
    for i := 0 to |cs|
      invariant r == out + ChangedGroupFindings(member, cs[..i])
    {
      assert cs[..i + 1][..i] == cs[..i];
      r := AppendDetails(r, member, cs[i].name, cs[i].removed);
    }
    assert cs[..|cs|] == cs;
  }

  method AppendGroups(out: seq<Finding>, removed: Kind, member: Kind, d: GroupsDiff) returns (r: seq<Finding>)
    ensures r == out + GroupFindings(removed, member, d)
  {
    r := AppendNames(out, removed, d.removed);
    r := AppendChangedGroups(r, member, d.changed);
  }

  method ClassifyBreaking(d: Diff) returns (out: seq<Finding>)
    ensures out == SortFindings(Findings(d))
  {
    out := [];
    if d.compatibilityLevel.Some? {
      out := [Finding(CompatLevelShift, d.moduleName, "")];
    }
    out := AppendRules(out, RULE_KINDS, d.rules);
    out := AppendGroups(out, ProviderRemoved, ProviderFieldRemoved, d.providers);
    out := AppendGroups(out, ModuleExtensionRemoved, ModuleExtensionTagRemoved, d.moduleExtensions);
    out := AppendRules(out, REPO_RULE_KINDS, d.repositoryRules);
    out := SortFindings(out);
  }

  // ----- What breaks, said of the two surfaces -----

  predicate AttrBroken(k: RuleKinds, a: Attrs, b: Attrs, kind: Kind, attr: string) {
    || (kind == k.attrRemoved && attr in a && attr !in b)
    || (kind == k.nowMandatory && attr in a && attr in b && !a[attr].mandatory && b[attr].mandatory)
  }

  predicate RuleBroken(k: RuleKinds, a: Rules, b: Rules, f: Finding) {
    || (f.kind == k.removed && f.detail == "" && f.symbol in a && f.symbol !in b)
    || (f.symbol in a && f.symbol in b && AttrBroken(k, AttrsOf(a[f.symbol]), AttrsOf(b[f.symbol]), f.kind, f.detail))
  }

  predicate GroupBroken(removed: Kind, member: Kind, a: Groups, b: Groups, f: Finding) {
    || (f.kind == removed && f.detail == "" && f.symbol in a && f.symbol !in b)
    || (f.kind == member && f.symbol in a && f.symbol in b && f.detail in a[f.symbol].members && f.detail !in b[f.symbol].members)
  }

  predicate Broken(from: ModuleReport, to: ModuleReport, f: Finding) {
    || (f == Finding(CompatLevelShift, to.name, "") && from.compatibilityLevel != to.compatibilityLevel)
    || RuleBroken(RULE_KINDS, RulesOf(from.rules), RulesOf(to.rules), f)
    || GroupBroken(ProviderRemoved, ProviderFieldRemoved, GroupsOf(from.providers), GroupsOf(to.providers), f)
    || GroupBroken(ModuleExtensionRemoved, ModuleExtensionTagRemoved, GroupsOf(from.moduleExtensions), GroupsOf(to.moduleExtensions), f)
    || RuleBroken(REPO_RULE_KINDS, RulesOf(from.repositoryRules), RulesOf(to.repositoryRules), f)
  }

  lemma {:induction false} NameFindingsExact(kind: Kind, names: seq<string>, f: Finding)
    ensures f in NameFindings(kind, names) <==> f.kind == kind && f.detail == "" && f.symbol in names
  {
    if names != [] {
      NameFindingsExact(kind, names[..|names| - 1], f);
      assert f.symbol in names <==> f.symbol in names[..|names| - 1] || f.symbol == names[|names| - 1];
    }
  }

  lemma {:induction false} DetailFindingsExact(kind: Kind, symbol: string, details: seq<string>, f: Finding)
    ensures f in DetailFindings(kind, symbol, details) <==> f.kind == kind && f.symbol == symbol && f.detail in details
  {
    if details != [] {
      DetailFindingsExact(kind, symbol, details[..|details| - 1], f);
      assert f.detail in details <==> f.detail in details[..|details| - 1] || f.detail == details[|details| - 1];
    }
  }

  lemma {:induction false} FlippedNamesExact(cs: seq<AttrChange>, n: string)
    ensures n in FlippedNames(cs) <==> exists c :: c in cs && NowMandatory(c) && c.name == n
  {
    if cs != [] {
      FlippedNamesExact(cs[..|cs| - 1], n);
      assert forall c :: c in cs <==> c in cs[..|cs| - 1] || c == cs[|cs| - 1];
    }
  }

  predicate RuleChangeBreaks(k: RuleKinds, c: ChangedRule, f: Finding) {
    && f.symbol == c.name
    && (|| (f.kind == k.attrRemoved && f.detail in Mapped(c.attrsRem, AttrName))
        || (f.kind == k.nowMandatory && f.detail in FlippedNames(c.attrsChg)))
  }

  lemma {:induction false} ChangedRulesExact(k: RuleKinds, cs: seq<ChangedRule>, f: Finding)
    ensures f in ChangedRuleFindings(k, cs) <==> exists c :: c in cs && RuleChangeBreaks(k, c, f)
  {
    if cs != [] {
      var c := cs[|cs| - 1];
      ChangedRulesExact(k, cs[..|cs| - 1], f);
      DetailFindingsExact(k.attrRemoved, c.name, Mapped(c.attrsRem, AttrName), f);
      DetailFindingsExact(k.nowMandatory, c.name, FlippedNames(c.attrsChg), f);
      assert c in cs;
      assert forall x :: x in cs <==> x in cs[..|cs| - 1] || x == c;
    }
  }

  lemma {:induction false} ChangedGroupsExact(kind: Kind, cs: seq<ChangedGroup>, f: Finding)
    ensures f in ChangedGroupFindings(kind, cs) <==> f.kind == kind && exists c :: c in cs && c.name == f.symbol && f.detail in c.removed
  {
    if cs != [] {
      var c := cs[|cs| - 1];
      ChangedGroupsExact(kind, cs[..|cs| - 1], f);
      DetailFindingsExact(kind, c.name, c.removed, f);
      assert forall x :: x in cs <==> x in cs[..|cs| - 1] || x == c;
    }
  }

  lemma NamesInOrder(m: Attrs, n: string)
    requires forall k | k in m :: m[k].name == k
    ensures n in Mapped(InOrder(m), AttrName) <==> n in m
  {
    var r := InOrder(m);
    if n in m {
      InOrderElements(m, m[n]);
      var i :| 0 <= i < |r| && r[i] == m[n];
      assert Mapped(r, AttrName)[i] == n;
    }
    if n in Mapped(r, AttrName) {
      var i :| 0 <= i < |r| && Mapped(r, AttrName)[i] == n;
      InOrderElements(m, r[i]);
    }
  }

  lemma RuleChangeExact(k: RuleKinds, a: RuleSpec, b: RuleSpec, f: Finding)
    requires a.name == b.name && RuleChangeOf(a, b).Some?
    ensures RuleChangeBreaks(k, RuleChangeOf(a, b).value, f) <==>
            f.symbol == a.name && AttrBroken(k, AttrsOf(a), AttrsOf(b), f.kind, f.detail)
    ensures RuleChangeOf(a, b).value.name == a.name
  {
    var am, bm := AttrsOf(a), AttrsOf(b);
    ByNameKeys(a.attrs, AttrName);
    ByNameKeys(b.attrs, AttrName);
    NamesInOrder(am - bm.Keys, f.detail);
    var chg := InOrder(AttrChanges(am, bm));
    FlippedNamesExact(chg, f.detail);
    forall c
      ensures c in chg <==> exists n :: n in AttrChanges(am, bm) && AttrChanges(am, bm)[n] == c
    {
      InOrderElements(AttrChanges(am, bm), c);
    }
    if f.detail in am && f.detail in bm && !am[f.detail].mandatory && bm[f.detail].mandatory {
      assert NowMandatory(AttrChanges(am, bm)[f.detail]);
      assert AttrChanges(am, bm)[f.detail] in chg;
    }
  }

  lemma NoChangeNoBreak(k: RuleKinds, a: RuleSpec, b: RuleSpec, f: Finding)
    requires RuleChangeOf(a, b).None?
    ensures !AttrBroken(k, AttrsOf(a), AttrsOf(b), f.kind, f.detail)
  {
    PatchGivesNew(a, b);
  }

  lemma ChangedRuleExact(k: RuleKinds, a: Rules, b: Rules, f: Finding)
    requires (forall n | n in a :: a[n].name == n) && (forall n | n in b :: b[n].name == n)
    ensures f in ChangedRuleFindings(k, InOrder(RuleChanges(a, b))) <==>
            f.symbol in RuleChanges(a, b) && RuleChangeBreaks(k, RuleChanges(a, b)[f.symbol], f)
  {
    var m := RuleChanges(a, b);
    ChangedRulesExact(k, InOrder(m), f);
    if c :| c in InOrder(m) && RuleChangeBreaks(k, c, f) {
      InOrderElements(m, c);
    }
    if f.symbol in m {
      InOrderElements(m, m[f.symbol]);
    }
  }

  /** The findings about rules are exactly the ways in which the new rules break the old ones. */
  lemma RuleFindingsExact(k: RuleKinds, a: Rules, b: Rules, f: Finding)
    requires (forall n | n in a :: a[n].name == n) && (forall n | n in b :: b[n].name == n)
    ensures f in RuleFindings(k, RulesDiffOf(a, b)) <==> RuleBroken(k, a, b, f)
  {
    var n := f.symbol;
    NameFindingsExact(k.removed, RulesDiffOf(a, b).removed, f);
    ChangedRuleExact(k, a, b, f);
    if n in a && n in b {
      if RuleChangeOf(a[n], b[n]).Some? {
        RuleChangeExact(k, a[n], b[n], f);
      } else {
        NoChangeNoBreak(k, a[n], b[n], f);
      }
    }
  }

  lemma ChangedGroupExact(kind: Kind, a: Groups, b: Groups, f: Finding)
    requires (forall n | n in a :: a[n].name == n) && (forall n | n in b :: b[n].name == n)
    ensures f in ChangedGroupFindings(kind, InOrder(GroupChanges(a, b))) <==>
            f.kind == kind && f.symbol in a && f.symbol in b && f.detail in a[f.symbol].members && f.detail !in b[f.symbol].members
  {
    var m := GroupChanges(a, b);
    ChangedGroupsExact(kind, InOrder(m), f);
    if f.symbol in a && f.symbol in b {
      GroupChangeExact(a[f.symbol], b[f.symbol], f.detail);
    }
    if c :| c in InOrder(m) && c.name == f.symbol && f.detail in c.removed {
      InOrderElements(m, c);
    }
    if f.symbol in m {
      InOrderElements(m, m[f.symbol]);
    }
  }

  lemma GroupChangeExact(a: GroupSpec, b: GroupSpec, x: string)
    ensures GroupChangeOf(a, b).Some? && x in GroupChangeOf(a, b).value.removed <==> x in a.members && x !in b.members
  {
    assert x in AsSet(a.members) <==> x in a.members;
    assert x in AsSet(b.members) <==> x in b.members;
  }

  lemma GroupFindingsExact(removed: Kind, member: Kind, a: Groups, b: Groups, f: Finding)
    requires (forall n | n in a :: a[n].name == n) && (forall n | n in b :: b[n].name == n)
    ensures f in GroupFindings(removed, member, GroupsDiffOf(a, b)) <==> GroupBroken(removed, member, a, b, f)
  {
    NameFindingsExact(removed, GroupsDiffOf(a, b).removed, f);
    ChangedGroupExact(member, a, b, f);
  }

  /** What ClassifyBreaking(Compute(from, to)) lists, finding by finding. */
  lemma FindingsExact(from: ModuleReport, to: ModuleReport, f: Finding)
    ensures f in SortFindings(Findings(DiffOf(from, to))) <==> Broken(from, to, f)
  {
    SortFindingsSorted(Findings(DiffOf(from, to)));
    NamedRules(from.rules);
    NamedRules(to.rules);
    NamedRules(from.repositoryRules);
    NamedRules(to.repositoryRules);
    NamedGroups(from.providers);
    NamedGroups(to.providers);
    NamedGroups(from.moduleExtensions);
    NamedGroups(to.moduleExtensions);
    RuleFindingsExact(RULE_KINDS, RulesOf(from.rules), RulesOf(to.rules), f);
    RuleFindingsExact(REPO_RULE_KINDS, RulesOf(from.repositoryRules), RulesOf(to.repositoryRules), f);
    GroupFindingsExact(ProviderRemoved, ProviderFieldRemoved, GroupsOf(from.providers), GroupsOf(to.providers), f);
    GroupFindingsExact(ModuleExtensionRemoved, ModuleExtensionTagRemoved, GroupsOf(from.moduleExtensions), GroupsOf(to.moduleExtensions), f);
  }

  // ----- Compatibility as a relation between surfaces -----

  ghost predicate RulesPreserved(a: Rules, b: Rules) {
    forall n | n in a :: n in b && forall x | x in AttrsOf(a[n]) ::
      x in AttrsOf(b[n]) && (AttrsOf(b[n])[x].mandatory ==> AttrsOf(a[n])[x].mandatory)
  }

  ghost predicate GroupsPreserved(a: Groups, b: Groups) {
    forall n | n in a :: n in b && forall x | x in a[n].members :: x in b[n].members
  }

  /** Every public rule, repository rule, provider and extension survives with all its
      attributes, fields and tag classes, no optional attribute has become mandatory, and the
      compatibility level is the same.  New mandatory attributes and changed types are allowed. */
  ghost predicate Preserves(from: ModuleReport, to: ModuleReport) {
    && from.compatibilityLevel == to.compatibilityLevel
    && RulesPreserved(RulesOf(from.rules), RulesOf(to.rules))
    && RulesPreserved(RulesOf(from.repositoryRules), RulesOf(to.repositoryRules))
    && GroupsPreserved(GroupsOf(from.providers), GroupsOf(to.providers))
    && GroupsPreserved(GroupsOf(from.moduleExtensions), GroupsOf(to.moduleExtensions))
  }

  lemma RulesPreservedExact(k: RuleKinds, a: Rules, b: Rules)
    ensures RulesPreserved(a, b) <==> forall f :: !RuleBroken(k, a, b, f)
  {
    if forall f :: !RuleBroken(k, a, b, f) {
      forall n | n in a
        ensures n in b
        ensures forall x | x in AttrsOf(a[n]) :: n in b && x in AttrsOf(b[n]) && (AttrsOf(b[n])[x].mandatory ==> AttrsOf(a[n])[x].mandatory)
      {
        assert !RuleBroken(k, a, b, Finding(k.removed, n, ""));
        forall x | x in AttrsOf(a[n])
          ensures x in AttrsOf(b[n]) && (AttrsOf(b[n])[x].mandatory ==> AttrsOf(a[n])[x].mandatory)
        {
          assert !RuleBroken(k, a, b, Finding(k.attrRemoved, n, x));
          assert !RuleBroken(k, a, b, Finding(k.nowMandatory, n, x));
        }
      }
    }
  }

  lemma GroupsPreservedExact(removed: Kind, member: Kind, a: Groups, b: Groups)
    ensures GroupsPreserved(a, b) <==> forall f :: !GroupBroken(removed, member, a, b, f)
  {
    if forall f :: !GroupBroken(removed, member, a, b, f) {
      forall n | n in a
        ensures n in b && forall x | x in a[n].members :: x in b[n].members
      {
        assert !GroupBroken(removed, member, a, b, Finding(removed, n, ""));
        forall x | x in a[n].members
          ensures x in b[n].members
        {
          assert !GroupBroken(removed, member, a, b, Finding(member, n, x));
        }
      }
    }
  }

  /** The verdict is empty if and only if the new surface preserves the old one. */
  lemma NoFindingsMeansPreserved(from: ModuleReport, to: ModuleReport)
    ensures SortFindings(Findings(DiffOf(from, to))) == [] <==> Preserves(from, to)
  {
    var out := SortFindings(Findings(DiffOf(from, to)));
    assert out == [] <==> forall f :: f !in out by {
      if out != [] {
        assert out[0] in out;
      }
    }
    forall f
      ensures f in out <==> Broken(from, to, f)
    {
      FindingsExact(from, to, f);
    }
    SurfacesUnbroken(from, to);
  }

  lemma SurfacesUnbroken(from: ModuleReport, to: ModuleReport)
    ensures Preserves(from, to) <==> forall f :: !Broken(from, to, f)
  {
    RulesPreservedExact(RULE_KINDS, RulesOf(from.rules), RulesOf(to.rules));
    RulesPreservedExact(REPO_RULE_KINDS, RulesOf(from.repositoryRules), RulesOf(to.repositoryRules));
    GroupsPreservedExact(ProviderRemoved, ProviderFieldRemoved, GroupsOf(from.providers), GroupsOf(to.providers));
    GroupsPreservedExact(ModuleExtensionRemoved, ModuleExtensionTagRemoved, GroupsOf(from.moduleExtensions), GroupsOf(to.moduleExtensions));
    if forall f :: !Broken(from, to, f) {
      assert !Broken(from, to, Finding(CompatLevelShift, to.name, ""));
      assert forall f :: RuleBroken(RULE_KINDS, RulesOf(from.rules), RulesOf(to.rules), f) ==> Broken(from, to, f);
      assert forall f :: RuleBroken(REPO_RULE_KINDS, RulesOf(from.repositoryRules), RulesOf(to.repositoryRules), f) ==> Broken(from, to, f);
      assert forall f :: GroupBroken(ProviderRemoved, ProviderFieldRemoved, GroupsOf(from.providers), GroupsOf(to.providers), f) ==> Broken(from, to, f);
      assert forall f :: GroupBroken(ModuleExtensionRemoved, ModuleExtensionTagRemoved, GroupsOf(from.moduleExtensions), GroupsOf(to.moduleExtensions), f) ==> Broken(from, to, f);
    }
  }

  /** Two upgrades without findings make one without findings. */
  lemma EmptyVerdictsCompose(a: ModuleReport, b: ModuleReport, c: ModuleReport)
    requires SortFindings(Findings(DiffOf(a, b))) == [] && SortFindings(Findings(DiffOf(b, c))) == []
    ensures SortFindings(Findings(DiffOf(a, c))) == []
  {
    NoFindingsMeansPreserved(a, b);
    NoFindingsMeansPreserved(b, c);
    PreservesTransitive(a, b, c);
    NoFindingsMeansPreserved(a, c);
  }

  lemma PreservesTransitive(a: ModuleReport, b: ModuleReport, c: ModuleReport)
    requires Preserves(a, b) && Preserves(b, c)
    ensures Preserves(a, c)
  {
  }

  /** The whole of Compute: the Breaking field is filled from the rest. */
  method ComputeReport(from: ModuleReport, to: ModuleReport) returns (d: Diff, breaking: seq<Finding>)
    ensures d == DiffOf(from, to)
    ensures InReportOrder(breaking)
    ensures forall f :: f in breaking <==> Broken(from, to, f)
    ensures breaking == [] <==> Preserves(from, to)
  {
    d := Compute(from, to);
    breaking := ClassifyBreaking(d);
    SortFindingsSorted(Findings(d));
    NoFindingsMeansPreserved(from, to);
    forall f
      ensures f in breaking <==> Broken(from, to, f)
    {
      FindingsExact(from, to, f);
    }
  }
}
