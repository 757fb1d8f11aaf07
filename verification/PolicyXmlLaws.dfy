/** What the policy readers give for both kinds of policy element: attributes under either spelling of
    their names, and rule elements in plain or namespaced tags. */
module PolicyXmlLaws {
  import opened Wrappers
  import opened Text
  import opened PolicyXml

  // ---------- attributes ----------

  /** The first of the attributes that is there and not empty. */
  function FirstOf(pol: Element, names: seq<string>): Option<string> {
    if names == [] then None
    else if names[0] in pol.attributes && pol.attributes[names[0]] != "" then Some(pol.attributes[names[0]])
    else FirstOf(pol, names[1..])
  }

  /** A policy with a content attribute is read from its attributes alone. */
  lemma AttributesRead(pol: Element)
    requires FirstOf(pol, ["rule_content", "RuleContent", "SimplePatternText"]).Some?
    ensures var name, kind := FirstOf(pol, ["name", "Name"]), FirstOf(pol, ["rule_type", "RuleType"]);
            var device := FirstOf(pol, ["device_type", "DeviceType"]);
            ElementPolicies(pol)
            == [Policy(if name.Some? then name.value else "\U{7b56}\U{7565}",
                       if kind.Some? then kind.value else "must_contain",
                       FirstOf(pol, ["rule_content", "RuleContent", "SimplePatternText"]).value,
                       if device.Some? then device
                       else if "DeviceType" in pol.attributes then Some("") else None)]
  {
    TwoNames(pol, "name", "Name");
    TwoNames(pol, "rule_type", "RuleType");
    TwoNames(pol, "device_type", "DeviceType");
    ThreeNames(pol, "rule_content", "RuleContent", "SimplePatternText");
    hide FirstOf;
  }

  lemma TwoNames(pol: Element, a: string, b: string)
    ensures FirstOf(pol, [a, b]) == if OrText(Get(pol, a), "") != "" then Get(pol, a)
                                    else if OrText(Get(pol, b), "") != "" then Get(pol, b) else None
  {
    assert [a, b][1..] == [b] && [b][1..] == [];
    assert FirstOf(pol, [b]) == if OrText(Get(pol, b), "") != "" then Get(pol, b) else None;
  }

  lemma ThreeNames(pol: Element, a: string, b: string, c: string)
    ensures FirstOf(pol, [a, b, c]) == if OrText(Get(pol, a), "") != "" then Get(pol, a)
                                       else if OrText(Get(pol, b), "") != "" then Get(pol, b)
                                       else if OrText(Get(pol, c), "") != "" then Get(pol, c) else None
  {
    assert [a, b, c][1..] == [b, c];
    TwoNames(pol, b, c);
  }

  // ---------- rule elements ----------

  /** A rule: its name, its pattern type and its pattern text, as written. */
  datatype NcmRule = NcmRule(name: string, kind: string, text: string)

  /** "" or "{...}", the prefix ElementTree puts before the tags of a namespace. */
  predicate IsNamespace(ns: string) {
    ns == "" || (ns[|ns| - 1] == '}' && '}' !in ns[..|ns| - 1])
  }

  function Leaf(tag: string, text: string): Element {
    Element(tag, map[], Some(text), [])
  }

  function RuleElement(ns: string, r: NcmRule): Element {
    Element(ns + "PolicyRule", map[], None,
            [Leaf(ns + "SimplePatternText", r.text), Leaf(ns + "RuleName", r.name), Leaf(ns + "PatternType", r.kind)])
  }

  function RuleElements(ns: string, rules: seq<NcmRule>): (es: seq<Element>)
    ensures |es| == |rules| && forall i :: 0 <= i < |rules| ==> es[i] == RuleElement(ns, rules[i])
  {
    if rules == [] then [] else RuleElements(ns, rules[..|rules| - 1]) + [RuleElement(ns, rules[|rules| - 1])]
  }

  function RulesElement(ns: string, rules: seq<NcmRule>): Element {
    Element(ns + "AssignedPolicyRules", map[], None, RuleElements(ns, rules))
  }

  function PolicyOf(ns: string, rules: seq<NcmRule>): Element {
    Element(ns + "Policy", map[], None, [RulesElement(ns, rules)])
  }

  function PoliciesOf(ns: string, policies: seq<seq<NcmRule>>): (es: seq<Element>)
    ensures |es| == |policies| && forall i :: 0 <= i < |policies| ==> es[i] == PolicyOf(ns, policies[i])
  {
    if policies == [] then []
    else PoliciesOf(ns, policies[..|policies| - 1]) + [PolicyOf(ns, policies[|policies| - 1])]
  }

  /** A rule set with one element for each policy and rule. `assn` names the list of policies. */
  function RuleSet(ns: string, assn: string, policies: seq<seq<NcmRule>>): Element {
    Element(ns + "PolicyReport", map[], None, [Element(ns + assn, map[], None, PoliciesOf(ns, policies))])
  }

  /** The letters r, e, g, e, x in a row, in either case. */
  ghost predicate MentionsRegex(s: string) {
    exists i :: SpellsRegex(s, i)
  }

  ghost predicate SpellsRegex(s: string, i: int) {
    && 0 <= i && i + 5 <= |s| && s[i] in {'r', 'R'} && s[i + 1] in {'e', 'E'} && s[i + 2] in {'g', 'G'}
    && s[i + 3] in {'e', 'E'} && s[i + 4] in {'x', 'X'}
  }

  /** What one rule is read as: nothing without text; the first 50 characters name a nameless rule. */
  ghost function RuleRead(r: NcmRule): seq<Policy> {
    var text := Strip(r.text);
    if text == "" then []
    else [Policy(if Strip(r.name) != "" then Strip(r.name) else if |text| <= 50 then text else text[..50],
                 if MentionsRegex(Strip(r.kind)) then "regex" else "must_contain", text, None)]
  }

  ghost function RulesRead(rules: seq<NcmRule>): seq<Policy> {
    if rules == [] then [] else RulesRead(rules[..|rules| - 1]) + RuleRead(rules[|rules| - 1])
  }

  ghost function AllRulesRead(policies: seq<seq<NcmRule>>): seq<Policy> {
    if policies == [] then []
    else AllRulesRead(policies[..|policies| - 1]) + RulesRead(policies[|policies| - 1])
  }

  // ---------- text ----------

  lemma {:induction false} LowerLaw(s: string)
    ensures |Lower(s)| == |s|
    ensures forall i :: 0 <= i < |s| ==>
                          Lower(s)[i] == if 'A' <= s[i] <= 'Z' then s[i] - 'A' + 'a' else s[i]
  {
    if s != [] { LowerLaw(s[1..]); }
  }

  ghost predicate PartAt(s: string, part: string, i: int) {
    0 <= i <= |s| && part <= s[i..]
  }

  lemma {:induction false} HasPartIff(s: string, part: string)
    ensures HasPart(s, part) <==> exists i :: PartAt(s, part, i)
  {
    assert s[0..] == s;
    if part <= s { assert PartAt(s, part, 0); }
    if s != [] {
      HasPartIff(s[1..], part);
      if i :| PartAt(s[1..], part, i) {
        assert s[1..][i..] == s[i + 1..];
        assert PartAt(s, part, i + 1);
      }
      if i :| PartAt(s, part, i) && i > 0 {
        assert s[1..][i - 1..] == s[i..];
        assert PartAt(s[1..], part, i - 1);
      }
    }
  }

  lemma RegexIff(s: string)
    ensures HasPart(Lower(s), "regex") <==> MentionsRegex(s)
  {
    var low := Lower(s);
    LowerLaw(s);
    HasPartIff(low, "regex");
    hide Lower, HasPart;
    forall i ensures PartAt(low, "regex", i) <==> SpellsRegex(s, i) { RegexAt(s, low, i); }
    if i :| SpellsRegex(s, i) { assert PartAt(low, "regex", i); }
  }

  lemma RegexAt(s: string, low: string, i: int)
    requires |low| == |s|
    requires forall k :: 0 <= k < |s| ==> low[k] == if 'A' <= s[k] <= 'Z' then s[k] - 'A' + 'a' else s[k]
    ensures PartAt(low, "regex", i) <==> SpellsRegex(s, i)
  {
    if 0 <= i && i + 5 <= |s| {
      var tail := low[i..];
      assert "regex" <= tail <==> tail[..5] == "regex";
      assert tail[..5] == "regex" <==>
             low[i] == 'r' && low[i + 1] == 'e' && low[i + 2] == 'g' && low[i + 3] == 'e' && low[i + 4] == 'x';
    }
  }

  // ---------- tags ----------

  lemma {:induction false} UpToFirstBrace(ns: string, tag: string)
    requires ns != "" && IsNamespace(ns)
    ensures '}' in ns + tag && UpToBrace(ns + tag) == ns
    decreases |ns|
  {
    var all := ns + tag;
    assert all[|ns| - 1] == '}';
    if |ns| > 1 {
      assert ns[..|ns| - 1][0] == ns[0];
      assert ns[1..][..|ns| - 2] == ns[..|ns| - 1][1..];
      var inner := ns[..|ns| - 1];
      assert forall i :: 0 <= i < |inner| - 1 ==> inner[1..][i] == inner[i + 1];
      UpToFirstBrace(ns[1..], tag);
      assert all[1..] == ns[1..] + tag;
    } else {
      assert all[0] == '}';
    }
  }

  lemma NamespaceOf(ns: string, tag: string)
    requires IsNamespace(ns) && '}' !in tag
    ensures Namespace(ns + tag) == if ns == "" then None else Some(ns)
  {
    hide UpToBrace;
    if ns == "" { assert ns + tag == tag; } else { UpToFirstBrace(ns, tag); }
  }

  lemma {:induction false} FindAt(children: seq<Element>, tag: string, i: nat)
    requires i < |children| && children[i].tag == tag && forall j :: 0 <= j < i ==> children[j].tag != tag
    ensures Find(children, tag) == Some(children[i])
    decreases |children|
  {
    if i > 0 { FindAt(children[1..], tag, i - 1); }
  }

  lemma QualifiedDiffers(ns: string, name: string, other: string)
    requires IsNamespace(ns) && ns != "" && '}' !in other
    ensures ns + name != other
  {
    assert (ns + name)[|ns| - 1] == '}';
  }

  lemma OneTag(children: seq<Element>, tag: string)
    ensures FindFirst(children, [tag]) == Find(children, tag)
  {
    assert [tag][1..] == [];
    assert FindFirst(children, []) == None;
  }

  lemma OneQualified(ns: string, tag: string)
    ensures Qualified(ns, [tag]) == [ns + tag]
  {
    assert [tag][1..] == [];
    assert Qualified(ns, []) == [];
  }

  /** A child whose tag is in the parent's namespace is found by its bare name. */
  lemma ChildFound(parent: Element, ns: string, name: string, parentName: string, i: nat)
    requires IsNamespace(ns) && '}' !in name && parent.tag == ns + parentName && '}' !in parentName
    requires i < |parent.children| && parent.children[i].tag == ns + name
    requires forall j :: 0 <= j < i ==> parent.children[j].tag != ns + name
    requires forall j :: 0 <= j < |parent.children| ==> ns <= parent.children[j].tag
    ensures FindEl(parent, [name]) == Some(parent.children[i])
  {
    hide Find, UpToBrace, FindFirst, Qualified;
    NamespaceOf(ns, parentName);
    OneTag(parent.children, name);
    if ns == "" {
      assert ns + name == name;
      FindAt(parent.children, name, i);
    } else {
      OneQualified(ns, name);
      OneTag(parent.children, ns + name);
      FindAt(parent.children, ns + name, i);
      forall c | c in parent.children ensures c.tag != name {
        var j :| 0 <= j < |parent.children| && parent.children[j] == c;
        QualifiedDiffers(ns, c.tag[|ns|..], name);
        assert c.tag == ns + c.tag[|ns|..];
      }
    }
  }

  lemma OneTagOnly(found: seq<Element>, a: string, b: string)
    requires forall c :: c in found ==> c.tag == a && c.tag == b
    ensures found == [] || a == b
  {
    if found != [] { assert found[0] in found; }
  }

  lemma ChildrenFound(parent: Element, ns: string, name: string, parentName: string)
    requires IsNamespace(ns) && '}' !in name && parent.tag == ns + parentName && '}' !in parentName
    requires forall j :: 0 <= j < |parent.children| ==> parent.children[j].tag == ns + name
    ensures FindAllEl(parent, name) == parent.children
  {
    hide FindAll, UpToBrace;
    NamespaceOf(ns, parentName);
    AllFound(parent.children, ns + name);
    if ns == "" {
      assert ns + name == name;
    } else {
      QualifiedDiffers(ns, name, name);
      OneTagOnly(FindAll(parent.children, name), name, ns + name);
    }
  }

  // ---------- reading a rule set ----------

  /** Tags of one namespace start with it and differ where their names start differently. */
  lemma {:induction false} TagsDiffer(ns: string, a: string, b: string)
    requires a != [] && b != [] && a[0] != b[0]
    ensures ns <= ns + a && ns <= ns + b && ns + a != ns + b
  {
    assert (ns + a)[|ns|] == a[0] && (ns + b)[|ns|] == b[0];
  }

  lemma {:induction false} RuleParts(ns: string, r: NcmRule)
    requires IsNamespace(ns)
    ensures var e := RuleElement(ns, r);
            && FindEl(e, ["SimplePatternText"]) == Some(Leaf(ns + "SimplePatternText", r.text))
            && FindEl(e, ["RuleName"]) == Some(Leaf(ns + "RuleName", r.name))
            && FindEl(e, ["PatternType"]) == Some(Leaf(ns + "PatternType", r.kind))
  {
    hide FindEl, IsNamespace;
    var e := RuleElement(ns, r);
    TagsDiffer(ns, "SimplePatternText", "RuleName");
    TagsDiffer(ns, "SimplePatternText", "PatternType");
    TagsDiffer(ns, "RuleName", "PatternType");
    ChildFound(e, ns, "SimplePatternText", "PolicyRule", 0);
    ChildFound(e, ns, "RuleName", "PolicyRule", 1);
    ChildFound(e, ns, "PatternType", "PolicyRule", 2);
  }

  lemma {:induction false} RuleIsRead(ns: string, r: NcmRule)
    requires IsNamespace(ns)
    ensures var e := RuleElement(ns, r);
            (if TextOf(FindEl(e, ["SimplePatternText"])) == "" then [] else [RulePolicy(e)]) == RuleRead(r)
  {
    hide FindEl, Strip, Lower, HasPart, MentionsRegex, RuleElement;
    RuleParts(ns, r);
    RegexIff(Strip(r.kind));
  }

  lemma {:induction false} RulesAreRead(ns: string, rules: seq<NcmRule>)
    requires IsNamespace(ns)
    ensures RulePolicies(RuleElements(ns, rules)) == RulesRead(rules)
    decreases |rules|
  {
    hide FindEl, TextOf, RulePolicy, RuleElement, RuleRead;
    if rules != [] {
      var n := |rules| - 1;
      RulesAreRead(ns, rules[..n]);
      RuleIsRead(ns, rules[n]);
      var es := RuleElements(ns, rules);
      assert es[..n] == RuleElements(ns, rules[..n]);
    }
  }

  lemma {:induction false} PolicyIsRead(ns: string, rules: seq<NcmRule>)
    requires IsNamespace(ns)
    ensures ElementPolicies(PolicyOf(ns, rules)) == RulesRead(rules)
  {
    hide FindEl, FindAllEl, RuleElements, RulePolicies, RulesRead;
    var pol := PolicyOf(ns, rules);
    assert RuleContent(pol) == "";
    ChildFound(pol, ns, "AssignedPolicyRules", "Policy", 0);
    ChildrenFound(RulesElement(ns, rules), ns, "PolicyRule", "AssignedPolicyRules");
    RulesAreRead(ns, rules);
  }

  lemma {:induction false} PoliciesAreRead(ns: string, policies: seq<seq<NcmRule>>)
    requires IsNamespace(ns)
    ensures AllPolicies(PoliciesOf(ns, policies)) == AllRulesRead(policies)
    decreases |policies|
  {
    hide ElementPolicies, PolicyOf, RulesRead;
    if policies != [] {
      var n := |policies| - 1;
      PoliciesAreRead(ns, policies[..n]);
      PolicyIsRead(ns, policies[n]);
      var es := PoliciesOf(ns, policies);
      assert es[..n] == PoliciesOf(ns, policies[..n]);
    }
  }

  lemma {:induction false} ListFound(ns: string, assn: string, policies: seq<seq<NcmRule>>)
    requires IsNamespace(ns) && assn in {"AssignedPolicies", "AssignedPolicy"}
    ensures FindEl(RuleSet(ns, assn, policies), ["AssignedPolicies", "AssignedPolicy"])
            == Some(Element(ns + assn, map[], None, PoliciesOf(ns, policies)))
  {
    hide PoliciesOf, UpToBrace, Find;
    var root := RuleSet(ns, assn, policies);
    var c := root.children;
    assert "AssignedPolicies"[14] == 'e' && "AssignedPolicy"[13] == 'y' && |"AssignedPolicies"| != |"AssignedPolicy"|;
    NamespaceOf(ns, "PolicyReport");
    TwoTags(c, "AssignedPolicies", "AssignedPolicy");
    FindAt(c, ns + assn, 0);
    if ns == "" {
      assert ns + assn == assn;
    } else {
      QualifiedDiffers(ns, assn, "AssignedPolicies");
      QualifiedDiffers(ns, assn, "AssignedPolicy");
      TwoQualified(ns, "AssignedPolicies", "AssignedPolicy");
      TwoTags(c, ns + "AssignedPolicies", ns + "AssignedPolicy");
      assert |ns + "AssignedPolicies"| != |ns + "AssignedPolicy"|;
    }
  }

  lemma TwoTags(children: seq<Element>, a: string, b: string)
    ensures FindFirst(children, [a, b]) == if Find(children, a).Some? then Find(children, a) else Find(children, b)
  {
    assert [a, b][1..] == [b];
    OneTag(children, b);
  }

  lemma TwoQualified(ns: string, a: string, b: string)
    ensures Qualified(ns, [a, b]) == [ns + a, ns + b]
  {
    assert [a, b][1..] == [b];
    OneQualified(ns, b);
  }

  /** Reading a rule set gives, policy after policy and rule after rule, what each rule says, in plain
      tags as in tags of any namespace, under either name of the list. */
  lemma {:induction false} RuleSetRead(ns: string, assn: string, policies: seq<seq<NcmRule>>)
    requires IsNamespace(ns) && assn in {"AssignedPolicies", "AssignedPolicy"}
    ensures Policies(RuleSet(ns, assn, policies)) == AllRulesRead(policies)
  {
    hide FindEl, FindAllEl, AllPolicies, PoliciesOf, AllRulesRead;
    ListFound(ns, assn, policies);
    var list := Element(ns + assn, map[], None, PoliciesOf(ns, policies));
    ChildrenFound(list, ns, "Policy", assn);
    PoliciesAreRead(ns, policies);
  }

  // ---------- the report itself ----------

  lemma NoSuchChild(r: Report, rows: seq<Row>, tag: string)
    requires tag != "Comments" && tag != "AssignedPolicies"
    ensures FindEl(Exported(r, rows), [tag]) == None
  {
    hide PolicyElements, Find, FindFirst;
    var root := Exported(r, rows);
    OneTag(root.children, tag);
  }

  lemma CommentsFound(r: Report, rows: seq<Row>)
    ensures FindEl(Exported(r, rows), ["Comments"])
            == Some(Element("Comments", map[], Some(Strip(OrText(r.comments, ""))), []))
  {
    hide PolicyElements, FindFirst, Strip;
    var root := Exported(r, rows);
    OneTag(root.children, "Comments");
  }

  /** Importing an exported report gives its name, group, device type, state and comments back: a
      nameless report gets the default name, blank fields become none, and comments are stripped. */
  lemma ReportRoundTrip(r: Report, rows: seq<Row>)
    ensures var back := ImportedReport(Exported(r, rows));
            var comments := if r.comments.Some? then Strip(r.comments.value) else "";
            && back.name == (if r.name != "" then r.name else "\U{5bfc}\U{5165}\U{62a5}\U{544a}")
            && back.group == (if r.group == Some("") then None else r.group)
            && back.deviceType == (if r.deviceType == Some("") then None else r.deviceType)
            && back.enabled == r.enabled
            && back.comments == if comments == "" then None else Some(comments)
  {
    hide FindEl, Strip, PolicyElements, Lower, TextOf;
    ReportTexts(r, rows);
    ReportState(r, rows);
  }

  /** Only the comments have an element of their own. */
  lemma ReportTexts(r: Report, rows: seq<Row>)
    ensures var root := Exported(r, rows);
            && TextOf(FindEl(root, ["Name"])) == "" && TextOf(FindEl(root, ["Group"])) == ""
            && TextOf(FindEl(root, ["DeviceType"])) == ""
            && TextOf(FindEl(root, ["Comments"])) == if r.comments.Some? then Strip(r.comments.value) else ""
  {
    hide FindEl, Strip, PolicyElements, Exported;
    NoSuchChild(r, rows, "Name");
    NoSuchChild(r, rows, "Group");
    NoSuchChild(r, rows, "DeviceType");
    CommentsFound(r, rows);
    var text := OrText(r.comments, "");
    StripFixed(Strip(text));
    var _, _ := StripTrims(text);
    NothingToStrip();
  }

  lemma ReportState(r: Report, rows: seq<Row>)
    ensures ImportedReport(Exported(r, rows)).enabled == r.enabled
  {
    hide FindEl, Strip, PolicyElements, Lower, TextOf;
    LowerWords();
    assert |"false"| != |"true"| && |"false"| != |"enabled"|;
  }

  lemma NothingToStrip()
    ensures Strip("") == ""
  {
  }

  lemma LowerWords()
    ensures Lower("true") == "true" && Lower("false") == "false"
  {
    LowerLaw("true");
    LowerLaw("false");
  }

  /** So the report is restored exactly when it has a name, no blank fields and trimmed comments. */
  lemma ReportRestoredIff(r: Report, rows: seq<Row>)
    ensures ImportedReport(Exported(r, rows)) == r <==>
            && r.name != "" && r.group != Some("") && r.deviceType != Some("") && r.comments != Some("")
            && (r.comments.Some? ==> Trimmed(r.comments.value))
  {
    hide ImportedReport, Exported, Strip;
    ReportRoundTrip(r, rows);
    if r.comments.Some? { StripFixed(r.comments.value); }
  }
}
