/** The two readers of compliance policies, `_parse_policies_from_xml` and
    `_parse_report_policies_from_root`, and the report exporter, over parsed XML trees. */
module PolicyXml {
  import opened Wrappers
  import opened Text

  datatype Element = Element(tag: string, attributes: map<string, string>, text: Option<string>, children: seq<Element>)

  // ---------- ElementTree ----------

  function Get(e: Element, name: string): Option<string> {
    if name in e.attributes then Some(e.attributes[name]) else None
  }

  function Find(children: seq<Element>, tag: string): (r: Option<Element>)
    ensures r.Some? ==> r.value in children && r.value.tag == tag
    ensures r.None? ==> forall c :: c in children ==> c.tag != tag
  {
    if children == [] then None
    else if children[0].tag == tag then Some(children[0])
    else Find(children[1..], tag)
  }

  function FindAll(children: seq<Element>, tag: string): (r: seq<Element>)
    ensures forall c :: c in r <==> c in children && c.tag == tag
  {
    if children == [] then []
    else (if children[0].tag == tag then [children[0]] else []) + FindAll(children[1..], tag)
  }

  /** `or` chains over attribute values: None and the empty string are false. */
  function OrElse(a: Option<string>, b: Option<string>): Option<string> {
    if a.Some? && a.value != "" then a else b
  }

  function OrText(a: Option<string>, b: string): string {
    if a.Some? && a.value != "" then a.value else b
  }

  /** The "{namespace}" of a qualified tag. */
  function Namespace(tag: string): Option<string> {
    if '}' !in tag then None else Some(UpToBrace(tag))
  }

  function UpToBrace(tag: string): string
    requires '}' in tag
  {
    if tag[0] == '}' then "}" else [tag[0]] + UpToBrace(tag[1..])
  }

  function FindFirst(children: seq<Element>, tags: seq<string>): Option<Element> {
    if tags == [] then None
    else
      var e := Find(children, tags[0]);
      if e.Some? then e else FindFirst(children, tags[1..])
  }

  function Qualified(ns: string, tags: seq<string>): seq<string> {
    if tags == [] then [] else [ns + tags[0]] + Qualified(ns, tags[1..])
  }

  /** `_find_el`: plain tags first, then the tags in the parent's namespace. */
  function FindEl(parent: Element, tags: seq<string>): Option<Element> {
    var e := FindFirst(parent.children, tags);
    if e.Some? || Namespace(parent.tag).None? then e
    else FindFirst(parent.children, Qualified(Namespace(parent.tag).value, tags))
  }

  /** `_findall_el`. */
  function FindAllEl(parent: Element, tag: string): seq<Element> {
    var found := FindAll(parent.children, tag);
    if found != [] || Namespace(parent.tag).None? then found
    else FindAll(parent.children, Namespace(parent.tag).value + tag)
  }

  /** `_text`. */
  function TextOf(e: Option<Element>): string {
    if e.None? || e.value.text.None? then "" else Strip(e.value.text.value)
  }

  function Lower(s: string): string {
    if s == [] then []
    else [if 'A' <= s[0] <= 'Z' then s[0] - 'A' + 'a' else s[0]] + Lower(s[1..])
  }

  predicate HasPart(s: string, part: string) {
    part <= s || (s != [] && HasPart(s[1..], part))
  }

  function Clip(s: string, n: nat): string {
    if |s| <= n then s else s[..n]
  }

  // ---------- the readers ----------

  const DEFAULT_NAME := "\U{7b56}\U{7565}"

  datatype Policy = Policy(name: string, ruleType: string, content: string, deviceType: Option<string>)

  /** What the first reader adds to a policy. */
  datatype Grouped = Grouped(policy: Policy, group: Option<string>)

  function RuleContent(pol: Element): string {
    OrText(OrElse(Get(pol, "rule_content"), Get(pol, "RuleContent")), OrText(Get(pol, "SimplePatternText"), ""))
  }

  function AttributePolicy(pol: Element): Policy {
    Policy(OrText(OrElse(Get(pol, "name"), Get(pol, "Name")), DEFAULT_NAME),
           OrText(OrElse(Get(pol, "rule_type"), Get(pol, "RuleType")), "must_contain"),
           RuleContent(pol),
           OrElse(Get(pol, "device_type"), Get(pol, "DeviceType")))
  }

  function RulePolicy(rule: Element): Policy {
    var simple := TextOf(FindEl(rule, ["SimplePatternText"]));
    var ruleName := TextOf(FindEl(rule, ["RuleName"]));
    var pattern := Lower(TextOf(FindEl(rule, ["PatternType"])));
    Policy(if ruleName != "" then ruleName else Clip(simple, 50),
           if HasPart(pattern, "regex") then "regex" else "must_contain",
           simple, None)
  }

  /** The policies one rule element stands for. */
  function RulePolicies(rules: seq<Element>): seq<Policy> {
    if rules == [] then []
    else
      var rule := rules[|rules| - 1];
      RulePolicies(rules[..|rules| - 1]) +
      if TextOf(FindEl(rule, ["SimplePatternText"])) == "" then [] else [RulePolicy(rule)]
  }

  /** The policies one Policy element stands for: its attributes, or its rule elements. */
  function ElementPolicies(pol: Element): seq<Policy> {
    if RuleContent(pol) != "" then [AttributePolicy(pol)]
    else
      var rules := FindEl(pol, ["AssignedPolicyRules"]);
      if rules.None? then [] else RulePolicies(FindAllEl(rules.value, "PolicyRule"))
  }

  function AllPolicies(pols: seq<Element>): seq<Policy> {
    if pols == [] then [] else AllPolicies(pols[..|pols| - 1]) + ElementPolicies(pols[|pols| - 1])
  }

  /** The (name, rule type, content, device type) sequence a tree stands for. */
  function Policies(root: Element): seq<Policy> {
    var assn := FindEl(root, ["AssignedPolicies", "AssignedPolicy"]);
    if assn.None? then [] else AllPolicies(FindAllEl(assn.value, "Policy"))
  }

  function Ungrouped(gs: seq<Grouped>): (r: seq<Policy>)
    ensures |r| == |gs| && forall i :: 0 <= i < |gs| ==> r[i] == gs[i].policy
  {
    if gs == [] then [] else Ungrouped(gs[..|gs| - 1]) + [gs[|gs| - 1].policy]
  }

  lemma PoliciesStep(pols: seq<Element>, i: nat)
    requires i < |pols|
    ensures AllPolicies(pols[..i + 1]) == AllPolicies(pols[..i]) + ElementPolicies(pols[i])
  {
    assert pols[..i + 1][..i] == pols[..i];
  }

  lemma RulesStep(before: seq<Policy>, rules: seq<Element>, k: nat)
    requires k < |rules|
    ensures before + RulePolicies(rules[..k + 1]) ==
            (before + RulePolicies(rules[..k])) +
            if TextOf(FindEl(rules[k], ["SimplePatternText"])) == "" then [] else [RulePolicy(rules[k])]
  {
    assert rules[..k + 1][..k] == rules[..k];
  }

  lemma NoPolicies(before: seq<Policy>)
    ensures AllPolicies([]) == [] && before + RulePolicies([]) == before
  {
  }

  /** `_parse_report_policies_from_root`. */
  method ParseReportPolicies(root: Element) returns (out: seq<Policy>)
    ensures out == Policies(root)
  {
    hide RuleContent, AttributePolicy, RulePolicy, FindEl, FindAllEl, TextOf, AllPolicies, RulePolicies;
    var assn := FindEl(root, ["AssignedPolicies", "AssignedPolicy"]);
    if assn.None? { return []; }
    out := [];
    NoPolicies([]);
    var pols := FindAllEl(assn.value, "Policy");
    for i := 0 to |pols|
      invariant out == AllPolicies(pols[..i])
    {
      PoliciesStep(pols, i);
      var pol := pols[i];
      var content := RuleContent(pol);
      if content != "" {
        out := out + [AttributePolicy(pol)];
        continue;
      }
      var rulesEl := FindEl(pol, ["AssignedPolicyRules"]);
      if rulesEl.None? { continue; }
      ghost var before := out;
      NoPolicies(before);
      var rules := FindAllEl(rulesEl.value, "PolicyRule");
      for k := 0 to |rules|
        invariant out == before + RulePolicies(rules[..k])
      {
        RulesStep(before, rules, k);
        var simple := TextOf(FindEl(rules[k], ["SimplePatternText"]));
        if simple == "" { continue; }
        out := out + [RulePolicy(rules[k])];
      }
      assert rules[..|rules|] == rules;
    }
    assert pols[..|pols|] == pols;
  }

  function RuleSetName(root: Element): string {
    Strip(OrText(OrElse(Get(root, "name"), Get(root, "Name")),
                 OrText(Some(TextOf(FindEl(root, ["Name"]))), TextOf(FindEl(root, ["Group"])))))
  }

  /** `_parse_policies_from_xml`: the same tree with a group for every policy. */
  predicate AllGrouped(out: seq<Grouped>) {
    forall i :: 0 <= i < |out| ==> out[i].group.Some? && out[i].group.value != ""
  }

  lemma NothingGrouped()
    ensures Ungrouped([]) == []
  {
  }

  lemma AppendGrouped(out: seq<Grouped>, g: Grouped)
    ensures Ungrouped(out + [g]) == Ungrouped(out) + [g.policy]
  {
    assert (out + [g])[..|out|] == out;
  }

  method ParsePolicies(root: Element) returns (name: string, out: seq<Grouped>)
    ensures name == RuleSetName(root)
    ensures Ungrouped(out) == Policies(root)
    ensures name != "" ==> AllGrouped(out)
  {
    hide RuleContent, AttributePolicy, RulePolicy, FindEl, FindAllEl, TextOf, Ungrouped, RuleSetName, AllPolicies,
      RulePolicies;
    name := RuleSetName(root);
    var assn := FindEl(root, ["AssignedPolicies", "AssignedPolicy"]);
    NothingGrouped();
    out := [];
    if assn.None? { return; }
    NoPolicies([]);
    var pols := FindAllEl(assn.value, "Policy");
    for i := 0 to |pols|
      invariant Ungrouped(out) == AllPolicies(pols[..i])
      invariant name != "" ==> AllGrouped(out)
    {
      PoliciesStep(pols, i);
      var pol := pols[i];
      var content := RuleContent(pol);
      if content != "" {
        var group := OrElse(Some(name), OrElse(Get(pol, "group"), Get(pol, "Group")));
        AppendGrouped(out, Grouped(AttributePolicy(pol), group));
        out := out + [Grouped(AttributePolicy(pol), group)];
        continue;
      }
      var policyName := TextOf(FindEl(pol, ["PolicyName"]));
      var policyGroup := OrText(OrElse(Some(policyName), Some(name)), DEFAULT_NAME);
      var rulesEl := FindEl(pol, ["AssignedPolicyRules"]);
      if rulesEl.None? { continue; }
      ghost var before := Ungrouped(out);
      NoPolicies(before);
      var rules := FindAllEl(rulesEl.value, "PolicyRule");
      for k := 0 to |rules|
        invariant Ungrouped(out) == before + RulePolicies(rules[..k])
        invariant name != "" ==> AllGrouped(out)
      {
        RulesStep(before, rules, k);
        var simple := TextOf(FindEl(rules[k], ["SimplePatternText"]));
        if simple == "" { continue; }
        AppendGrouped(out, Grouped(RulePolicy(rules[k]), Some(policyGroup)));
        out := out + [Grouped(RulePolicy(rules[k]), Some(policyGroup))];
      }
      assert rules[..|rules|] == rules;
    }
    assert pols[..|pols|] == pols;
  }

  // ---------- the exporter ----------

  const EXPORT_LIMIT: nat := 500

  /** A stored policy; the columns may be NULL. */
  datatype Row = Row(
    name: Option<string>, ruleType: Option<string>, content: Option<string>, deviceType: Option<string>)

  function PolicyElement(p: Row): Element {
    Element("Policy",
            map["name" := OrText(p.name, ""), "rule_type" := OrText(p.ruleType, ""),
                "rule_content" := Clip(OrText(p.content, ""), EXPORT_LIMIT), "device_type" := OrText(p.deviceType, "")],
            None, [])
  }

  function PolicyElements(rows: seq<Row>): (r: seq<Element>)
    ensures |r| == |rows|
    ensures forall i :: 0 <= i < |rows| ==> r[i] == PolicyElement(rows[i])
  {
    if rows == [] then [] else PolicyElements(rows[..|rows| - 1]) + [PolicyElement(rows[|rows| - 1])]
  }

  datatype Report = Report(
    name: string, group: Option<string>, deviceType: Option<string>, enabled: bool, comments: Option<string>)

  function Exported(r: Report, rows: seq<Row>): Element {
    Element("PolicyReport",
            map["name" := r.name, "group" := OrText(r.group, ""), "device_type" := OrText(r.deviceType, ""),
                "enabled" := if r.enabled then "true" else "false"],
            None,
            [Element("Comments", map[], Some(Strip(OrText(r.comments, ""))), []),
             Element("AssignedPolicies", map[], None, PolicyElements(rows))])
  }

  method ExportReport(r: Report, rows: seq<Row>) returns (root: Element)
    ensures root == Exported(r, rows)
  {
    var pols: seq<Element> := [];
    for i := 0 to |rows|
      invariant pols == PolicyElements(rows[..i])
    {
      assert rows[..i + 1][..i] == rows[..i];
      pols := pols + [PolicyElement(rows[i])];
    }
    assert rows[..|rows|] == rows;
    root := Element("PolicyReport",
                    map["name" := r.name, "group" := OrText(r.group, ""), "device_type" := OrText(r.deviceType, ""),
                        "enabled" := if r.enabled then "true" else "false"],
                    None,
                    [Element("Comments", map[], Some(Strip(OrText(r.comments, ""))), []),
                     Element("AssignedPolicies", map[], None, pols)]);
  }

  const DEFAULT_REPORT := "\U{5bfc}\U{5165}\U{62a5}\U{544a}"

  function NonEmpty(s: string): Option<string> {
    if s == "" then None else Some(s)
  }

  /** The report row `import_compliance_report_xml` makes of a tree. */
  function ImportedReport(root: Element): Report {
    var enabled := Lower(OrText(Get(root, "enabled"), OrText(Some(TextOf(FindEl(root, ["ReportStatus"]))), "true")));
    Report(OrText(OrElse(Get(root, "name"), Get(root, "Name")),
                  OrText(Some(TextOf(FindEl(root, ["Name"]))), DEFAULT_REPORT)),
           NonEmpty(OrText(OrElse(Get(root, "group"), Get(root, "Group")), TextOf(FindEl(root, ["Group"])))),
           NonEmpty(OrText(OrElse(Get(root, "device_type"), Get(root, "DeviceType")),
                           TextOf(FindEl(root, ["DeviceType"])))),
           enabled == "true" || enabled == "enabled",
           NonEmpty(TextOf(FindEl(root, ["Comments"]))))
  }

  /** What reading an exported row gives back: nothing without content, defaults for a missing
      name or type, at most 500 characters, and no device type for a blank one. */
  function ReadBack(p: Row): seq<Policy> {
    if OrText(p.content, "") == "" then []
    else [Policy(OrText(p.name, DEFAULT_NAME), OrText(p.ruleType, "must_contain"),
                 Clip(p.content.value, EXPORT_LIMIT), OrElse(p.deviceType, None))]
  }

  function AllReadBack(rows: seq<Row>): seq<Policy> {
    if rows == [] then [] else AllReadBack(rows[..|rows| - 1]) + ReadBack(rows[|rows| - 1])
  }

  lemma ElementReadBack(p: Row)
    ensures ElementPolicies(PolicyElement(p)) == ReadBack(p)
  {
    var e := PolicyElement(p);
    assert e.children == [] && Namespace(e.tag).None?;
    assert FindFirst([], ["AssignedPolicyRules"]).None?;
  }

  lemma {:induction false} ElementsReadBack(rows: seq<Row>)
    ensures AllPolicies(PolicyElements(rows)) == AllReadBack(rows)
    decreases |rows|
  {
    if rows != [] {
      var n := |rows| - 1;
      ElementsReadBack(rows[..n]);
      ElementReadBack(rows[n]);
      assert PolicyElements(rows)[..n] == PolicyElements(rows[..n]);
    }
  }

  lemma {:induction false} AllFound(children: seq<Element>, tag: string)
    requires forall i :: 0 <= i < |children| ==> children[i].tag == tag
    ensures FindAll(children, tag) == children
    decreases |children|
  {
    if children != [] { AllFound(children[1..], tag); }
  }

  function AssignedElement(rows: seq<Row>): Element {
    Element("AssignedPolicies", map[], None, PolicyElements(rows))
  }

  lemma AssignedFound(r: Report, rows: seq<Row>)
    ensures FindEl(Exported(r, rows), ["AssignedPolicies", "AssignedPolicy"]) == Some(AssignedElement(rows))
  {
    hide PolicyElements, Namespace, Qualified;
    var children := Exported(r, rows).children;
    assert |children| == 2 && children[0].tag == "Comments" && children[1] == AssignedElement(rows);
    assert "Comments"[0] != "AssignedPolicies"[0];
    assert children[1..][0] == AssignedElement(rows);
    assert Find(children[1..], "AssignedPolicies") == Some(AssignedElement(rows));
    assert Find(children, "AssignedPolicies") == Some(AssignedElement(rows));
  }

  lemma PoliciesFound(rows: seq<Row>)
    ensures FindAllEl(AssignedElement(rows), "Policy") == PolicyElements(rows)
  {
    hide FindAll, UpToBrace, PolicyElements;
    AllFound(PolicyElements(rows), "Policy");
    assert Namespace("AssignedPolicies").None?;
  }

  /** Reading back an exported report gives, row by row, what `ReadBack` says. */
  lemma {:induction false} ExportRoundTrip(r: Report, rows: seq<Row>)
    ensures Policies(Exported(r, rows)) == AllReadBack(rows)
  {
    hide FindEl, FindAllEl, Exported, AllPolicies, PolicyElements, AllReadBack;
    AssignedFound(r, rows);
    PoliciesFound(rows);
    ElementsReadBack(rows);
  }

  /** The policy a row stands for, a blank device type being none. */
  function RowPolicy(p: Row): Policy {
    Policy(OrText(p.name, ""), OrText(p.ruleType, ""), OrText(p.content, ""), OrElse(p.deviceType, None))
  }

  /** Non-empty name and type, and content of 1 to 500 characters. */
  predicate Exportable(p: Row) {
    && OrText(p.name, "") != "" && OrText(p.ruleType, "") != ""
    && 1 <= |OrText(p.content, "")| <= 500
  }

  lemma RestoredIff(p: Row)
    ensures ReadBack(p) == [RowPolicy(p)] <==> Exportable(p)
  {
    var content := OrText(p.content, "");
    if |content| > EXPORT_LIMIT {
      assert |Clip(content, EXPORT_LIMIT)| < |content|;
    }
  }

  function RowPolicies(rows: seq<Row>): (r: seq<Policy>)
    ensures |r| == |rows|
  {
    if rows == [] then [] else RowPolicies(rows[..|rows| - 1]) + [RowPolicy(rows[|rows| - 1])]
  }

  lemma {:induction false} AllRestoredIff(rows: seq<Row>)
    ensures |AllReadBack(rows)| <= |rows|
    ensures AllReadBack(rows) == RowPolicies(rows) <==> forall i :: 0 <= i < |rows| ==> Exportable(rows[i])
    decreases |rows|
  {
    if rows != [] {
      var n := |rows| - 1;
      var init, one := AllReadBack(rows[..n]), ReadBack(rows[n]);
      AllRestoredIff(rows[..n]);
      RestoredIff(rows[n]);
      assert forall i :: 0 <= i < n ==> rows[..n][i] == rows[i];
      if AllReadBack(rows) == RowPolicies(rows) {
        assert |init| + |one| == n + 1 && |one| == 1;
        assert (init + one)[..n] == init && (init + one)[n] == one[0];
        assert (RowPolicies(rows[..n]) + [RowPolicy(rows[n])])[..n] == RowPolicies(rows[..n]);
      }
    }
  }

  /** Exporting a report and reading it back restores every policy, in order, exactly when every
      row has a name, a type and content of 1 to 500 characters. */
  lemma {:induction false} ExportRestoresIff(r: Report, rows: seq<Row>)
    ensures Policies(Exported(r, rows)) == RowPolicies(rows) <==> forall i :: 0 <= i < |rows| ==> Exportable(rows[i])
  {
    ExportRoundTrip(r, rows);
    AllRestoredIff(rows);
  }
}
