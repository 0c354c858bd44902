/** Access rules: first-match evaluation between two nodes. */
module Acl {
  import opened Outcomes

  /** A rule dictionary with the defaults of missing keys filled in. */
  datatype Rule = Rule(source: string, destination: string, action: string, ports: seq<int>, protocols: seq<string>)

  datatype Node = Node(hostname: Option<string>, nodeId: Option<string>, meshIpv4: Option<string>, tags: seq<string>)

  predicate StartsWith(s: string, prefix: string) {
    prefix <= s
  }

  predicate IsNamed(node: Node, name: string) {
    Some(name) == node.hostname || Some(name) == node.nodeId || Some(name) == node.meshIpv4
  }

  predicate MatchNodeSelector(selector: string, node: Node) {
    if selector == "*" then true
    else if StartsWith(selector, "group:") then selector[|"group:"|..] in node.tags
    else if StartsWith(selector, "node:") then IsNamed(node, selector[|"node:"|..])
    else IsNamed(node, selector)
  }

  predicate MatchRule(rule: Rule, src: Node, dst: Node, port: Option<int>, protocol: string) {
    && MatchNodeSelector(rule.source, src)
    && MatchNodeSelector(rule.destination, dst)
    && (rule.ports == [] || port.None? || port.value in rule.ports)
    && (rule.protocols == [] || protocol in rule.protocols)
  }

  /** What a selector selects: a tag behind "group:", a node's own name behind "node:" or bare. */
  lemma SelectorsSelect(name: string, node: Node)
    ensures MatchNodeSelector("*", node)
    ensures MatchNodeSelector("group:" + name, node) <==> name in node.tags
    ensures MatchNodeSelector("node:" + name, node) <==> IsNamed(node, name)
    ensures name != "*" && !StartsWith(name, "group:") && !StartsWith(name, "node:") ==>
              (MatchNodeSelector(name, node) <==> IsNamed(node, name))
  {
    var g, n := "group:" + name, "node:" + name;
    assert g[|"group:"|..] == name && n[|"node:"|..] == name;
    assert g[0] == 'g' && n[0] == 'n' && "group:"[0] == 'g';
  }

  /** The verdict of the first rule that matches, if any does. */
  function FirstVerdict(rules: seq<Rule>, src: Node, dst: Node, port: Option<int>, protocol: string): Option<bool> {
    if rules == [] then None
    else if MatchRule(rules[0], src, dst, port, protocol) then Some(rules[0].action == "allow")
    else FirstVerdict(rules[1..], src, dst, port, protocol)
  }

  class ACLEngine {
    var rules: seq<Rule>

    constructor (rules: Option<seq<Rule>>)
      ensures this.rules == if rules.Some? then rules.value else []
    {
      this.rules := if rules.Some? then rules.value else [];
    }

    method SetRules(rules: seq<Rule>)
      modifies this
      ensures this.rules == rules
    {
      this.rules := rules;
    }

    /** Allowed without rules; denied when rules exist but none matches. */
    predicate IsAllowed(src: Node, dst: Node, port: Option<int>, protocol: string)
      reads this
    {
      if rules == [] then true
      else FirstVerdict(rules, src, dst, port, protocol) == Some(true)
    }

    /** Allowed exactly when there are no rules, or an allowing rule matches and none before it does. */
    lemma IsAllowedIff(src: Node, dst: Node, port: Option<int>, protocol: string)
      ensures IsAllowed(src, dst, port, protocol) <==>
              rules == [] || exists i :: 0 <= i < |rules| && rules[i].action == "allow" &&
                                         FirstMatch(rules, i, src, dst, port, protocol)
    {
      FirstVerdictIsFirst(rules, src, dst, port, protocol);
    }
  }

  /** A selector by what it means: everyone, the nodes with a tag, or the node of a name, which may be
      written with or without "node:". */
  datatype Selector = Anyone | Tagged(group: string) | Named(name: string) | Bare(name: string)

  function Written(s: Selector): string {
    match s
    case Anyone => "*"
    case Tagged(group) => "group:" + group
    case Named(name) => "node:" + name
    case Bare(name) => name
  }

  /** A bare name can be written if it does not read as another selector. */
  predicate IsWritable(s: Selector) {
    s.Bare? ==> s.name != "*" && !StartsWith(s.name, "group:") && !StartsWith(s.name, "node:")
  }

  predicate Means(s: Selector, node: Node) {
    match s
    case Anyone => true
    case Tagged(group) => group in node.tags
    case Named(name) => node.hostname == Some(name) || node.nodeId == Some(name) || node.meshIpv4 == Some(name)
    case Bare(name) => node.hostname == Some(name) || node.nodeId == Some(name) || node.meshIpv4 == Some(name)
  }

  lemma WrittenMeans(s: Selector, node: Node)
    requires IsWritable(s)
    ensures MatchNodeSelector(Written(s), node) <==> Means(s, node)
  {
    hide MatchNodeSelector;
    match s
    case Anyone => SelectorsSelect("", node);
    case Tagged(group) => SelectorsSelect(group, node);
    case Named(name) => SelectorsSelect(name, node);
    case Bare(name) => SelectorsSelect(name, node);
  }

  /** A single rule between any two kinds of selectors: it lets through exactly what comes from a source
      node to a destination node on one of its ports, if it has ports and a port is given, and in one of
      its protocols, if it names some; and only if its action is "allow". */
  lemma OneRuleAllowsIff(engine: ACLEngine, from: Selector, to: Selector, action: string, ports: seq<int>,
                         protocols: seq<string>, src: Node, dst: Node, port: Option<int>, protocol: string)
    requires IsWritable(from) && IsWritable(to)
    requires engine.rules == [Rule(Written(from), Written(to), action, ports, protocols)]
    ensures engine.IsAllowed(src, dst, port, protocol) <==>
            && action == "allow" && Means(from, src) && Means(to, dst)
            && (ports == [] || port == None || port.value in ports)
            && (protocols == [] || protocol in protocols)
  {
    hide MatchNodeSelector, Means, Written;
    WrittenMeans(from, src);
    WrittenMeans(to, dst);
    var rule := engine.rules[0];
    assert engine.rules[1..] == [];
    assert FirstVerdict([], src, dst, port, protocol) == None;
  }

  /** From one group to another: both tags are needed, each on its own side. */
  lemma GroupToGroup(engine: ACLEngine, g: string, h: string, src: Node, dst: Node, port: Option<int>, protocol: string)
    requires engine.rules == [Rule("group:" + g, "group:" + h, "allow", [], [])]
    ensures engine.IsAllowed(src, dst, port, protocol) <==> g in src.tags && h in dst.tags
  {
    OneRuleAllowsIff(engine, Tagged(g), Tagged(h), "allow", [], [], src, dst, port, protocol);
  }

  /** Rule `i` matches, and no rule before it does. */
  ghost predicate FirstMatch(rules: seq<Rule>, i: int, src: Node, dst: Node, port: Option<int>, protocol: string) {
    && 0 <= i < |rules|
    && MatchRule(rules[i], src, dst, port, protocol)
    && forall j :: 0 <= j < i ==> !MatchRule(rules[j], src, dst, port, protocol)
  }

  lemma {:induction false} FirstVerdictIsFirst(rules: seq<Rule>, src: Node, dst: Node,
                                               port: Option<int>, protocol: string)
    ensures match FirstVerdict(rules, src, dst, port, protocol)
            case None => forall i :: 0 <= i < |rules| ==> !MatchRule(rules[i], src, dst, port, protocol)
            case Some(v) => exists i ::
              FirstMatch(rules, i, src, dst, port, protocol) && v == (rules[i].action == "allow")
    ensures forall i, j ::
              FirstMatch(rules, i, src, dst, port, protocol) && FirstMatch(rules, j, src, dst, port, protocol)
              ==> i == j
  {
    hide MatchRule;
    if rules != [] {
      FirstVerdictIsFirst(rules[1..], src, dst, port, protocol);
      if MatchRule(rules[0], src, dst, port, protocol) {
        assert FirstMatch(rules, 0, src, dst, port, protocol);
      } else if FirstVerdict(rules[1..], src, dst, port, protocol).Some? {
        var i :| FirstMatch(rules[1..], i, src, dst, port, protocol) &&
                 FirstVerdict(rules, src, dst, port, protocol).value == (rules[1..][i].action == "allow");
        assert forall j :: 0 <= j < i + 1 ==> !MatchRule(rules[j], src, dst, port, protocol) by {
          forall j | 0 <= j < i + 1 ensures !MatchRule(rules[j], src, dst, port, protocol) {
            if j > 0 {
              assert rules[j] == rules[1..][j - 1];
            }
          }
        }
        assert FirstMatch(rules, i + 1, src, dst, port, protocol);
      } else {
        forall i | 0 <= i < |rules| ensures !MatchRule(rules[i], src, dst, port, protocol) {
          if i > 0 {
            assert rules[i] == rules[1..][i - 1];
          }
        }
      }
    }
  }
}
