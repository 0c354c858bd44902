/** Compilation of access rules into an ordered packet-filter chain. */
module Firewall {
  import opened Acl
  import opened Outcomes
  import opened Text

  /** One appended entry: an interface, optionally a TCP destination port, and a target. */
  datatype Entry = Entry(interface: string, tcpPort: Option<int>, accept: bool)

  datatype Packet = Packet(interface: string, protocol: string, port: int)

  predicate EntryMatches(e: Entry, p: Packet) {
    e.interface == p.interface && (e.tcpPort.Some? ==> p.protocol == "tcp" && p.port == e.tcpPort.value)
  }

  /** What the chain decides: the target of its first matching entry, if any matches. */
  function ChainVerdict(chain: seq<Entry>, p: Packet): Option<bool> {
    if chain == [] then None
    else if EntryMatches(chain[0], p) then Some(chain[0].accept)
    else ChainVerdict(chain[1..], p)
  }

  predicate TargetAccepts(rule: Rule) {
    Upper(rule.action) == "ALLOW"
  }

  function PortEntries(interface: string, ports: seq<int>, accept: bool): (r: seq<Entry>)
    ensures |r| == |ports|
    ensures forall i :: 0 <= i < |ports| ==> r[i] == Entry(interface, Some(ports[i]), accept)
  {
    seq(|ports|, i requires 0 <= i < |ports| => Entry(interface, Some(ports[i]), accept))
  }

  function RuleEntries(interface: string, rule: Rule): (r: seq<Entry>)
    ensures |r| == if rule.ports == [] then 1 else |rule.ports|
  {
    if rule.ports == [] then [Entry(interface, None, TargetAccepts(rule))]
    else PortEntries(interface, rule.ports, TargetAccepts(rule))
  }

  function Compiled(interface: string, rules: seq<Rule>): seq<Entry> {
    if rules == [] then []
    else Compiled(interface, rules[..|rules| - 1]) + RuleEntries(interface, rules[|rules| - 1])
  }

  lemma CompiledStep(interface: string, rules: seq<Rule>, i: nat)
    requires i < |rules|
    ensures Compiled(interface, rules[..i + 1]) == Compiled(interface, rules[..i]) + RuleEntries(interface, rules[i])
  {
    hide RuleEntries;
    assert rules[..i + 1][..i] == rules[..i];
  }

  lemma NoneCompiled(interface: string)
    ensures Compiled(interface, []) == []
  {
  }

  lemma PortStep(interface: string, ports: seq<int>, accept: bool, k: nat)
    requires k < |ports|
    ensures PortEntries(interface, ports, accept)[..k + 1] ==
            PortEntries(interface, ports, accept)[..k] + [Entry(interface, Some(ports[k]), accept)]
  {
  }

  class FirewallManager {
    const interfaceName: string
    const hasIptables: bool
    /** The kernel's PYMESH_ACL chain. */
    var chain: seq<Entry>

    constructor (interfaceName: string, hasIptables: bool)
      ensures this.interfaceName == interfaceName && this.hasIptables == hasIptables
    {
      this.interfaceName, this.hasIptables := interfaceName, hasIptables;
    }

    /** Flushes the chain and appends the rules' entries, every command succeeding. */
    method ApplyRules(rules: seq<Rule>) returns (ok: bool)
      modifies this`chain
      ensures ok
      ensures chain == if hasIptables then Compiled(interfaceName, rules) else old(chain)
    {
      if !hasIptables {
        return true;
      }
      hide Compiled, PortEntries, TargetAccepts;
      chain := [];
      NoneCompiled(interfaceName);
      for i := 0 to |rules|
        invariant chain == Compiled(interfaceName, rules[..i])
      {
        var accept := TargetAccepts(rules[i]);
        var ports := rules[i].ports;
        ghost var done := chain;
        CompiledStep(interfaceName, rules, i);
        if ports != [] {
          for k := 0 to |ports|
            invariant chain == done + PortEntries(interfaceName, ports, accept)[..k]
          {
            PortStep(interfaceName, ports, accept, k);
            chain := chain + [Entry(interfaceName, Some(ports[k]), accept)];
          }
          assert PortEntries(interfaceName, ports, accept)[..|ports|] == PortEntries(interfaceName, ports, accept);
        } else {
          chain := chain + [Entry(interfaceName, None, accept)];
        }
      }
      assert rules[..|rules|] == rules;
      return true;
    }
  }

  // ----- What a chain decides

  lemma {:induction false} VerdictConcat(a: seq<Entry>, b: seq<Entry>, p: Packet)
    ensures ChainVerdict(a + b, p) == if ChainVerdict(a, p).Some? then ChainVerdict(a, p) else ChainVerdict(b, p)
  {
    if a == [] {
      assert a + b == b;
    } else {
      assert (a + b)[1..] == a[1..] + b;
      VerdictConcat(a[1..], b, p);
    }
  }

  /** Some entry of the rule matches the packet. */
  predicate RuleHits(rule: Rule, p: Packet) {
    rule.ports == [] || (p.protocol == "tcp" && p.port in rule.ports)
  }

  lemma {:induction false} PortEntriesVerdict(interface: string, ports: seq<int>, accept: bool, p: Packet)
    requires p.interface == interface
    ensures ChainVerdict(PortEntries(interface, ports, accept), p) ==
            if p.protocol == "tcp" && p.port in ports then Some(accept) else None
  {
    if ports != [] {
      PortEntriesVerdict(interface, ports[1..], accept, p);
      assert PortEntries(interface, ports, accept)[1..] == PortEntries(interface, ports[1..], accept);
      assert ports == [ports[0]] + ports[1..];
    }
  }

  lemma RuleVerdict(interface: string, rule: Rule, p: Packet)
    requires p.interface == interface
    ensures ChainVerdict(RuleEntries(interface, rule), p) ==
            if RuleHits(rule, p) then Some(TargetAccepts(rule)) else None
  {
    PortEntriesVerdict(interface, rule.ports, TargetAccepts(rule), p);
  }

  lemma {:induction false} CompiledConcat(interface: string, a: seq<Rule>, b: seq<Rule>)
    ensures Compiled(interface, a + b) == Compiled(interface, a) + Compiled(interface, b)
  {
    hide RuleEntries;
    if b == [] {
      assert a + b == a;
    } else {
      var init, last := b[..|b| - 1], b[|b| - 1];
      CompiledConcat(interface, a, init);
      assert (a + b)[..|a + b| - 1] == a + init && (a + b)[|a + b| - 1] == last;
      assert Compiled(interface, a + b) == Compiled(interface, a + init) + RuleEntries(interface, last);
    }
  }

  lemma CompiledHead(interface: string, rules: seq<Rule>)
    requires rules != []
    ensures Compiled(interface, rules) == RuleEntries(interface, rules[0]) + Compiled(interface, rules[1..])
  {
    assert rules == [rules[0]] + rules[1..];
    CompiledConcat(interface, [rules[0]], rules[1..]);
    assert [rules[0]][..0] == [];
    assert Compiled(interface, [rules[0]]) == RuleEntries(interface, rules[0]);
  }

  /** The rule and its entries say the same about this packet between these two nodes. */
  predicate CompilesExactly(rule: Rule, src: Node, dst: Node, p: Packet) {
    && (MatchRule(rule, src, dst, Some(p.port), p.protocol) <==> RuleHits(rule, p))
    && (RuleHits(rule, p) ==> (rule.action == "allow" <==> TargetAccepts(rule)))
  }

  /** For one rule, chain and policy agree on a packet exactly when the rule compiles exactly. */
  lemma RuleAgreesIff(interface: string, rule: Rule, src: Node, dst: Node, p: Packet)
    requires p.interface == interface
    ensures ChainVerdict(Compiled(interface, [rule]), p) == FirstVerdict([rule], src, dst, Some(p.port), p.protocol)
            <==> CompilesExactly(rule, src, dst, p)
  {
    CompiledHead(interface, [rule]);
    assert Compiled(interface, [rule]) == RuleEntries(interface, rule);
    RuleVerdict(interface, rule, p);
  }

  /** Where every rule compiles exactly, first match over the chain is first match over the rules. */
  lemma {:induction false} CompilationPreservesVerdicts(interface: string, rules: seq<Rule>,
                                                        src: Node, dst: Node, p: Packet)
    requires p.interface == interface
    requires forall r :: r in rules ==> CompilesExactly(r, src, dst, p)
    ensures ChainVerdict(Compiled(interface, rules), p) == FirstVerdict(rules, src, dst, Some(p.port), p.protocol)
  {
    hide CompilesExactly, MatchRule, RuleEntries, Compiled;
    if rules == [] {
      NoneCompiled(interface);
    } else {
      CompiledHead(interface, rules);
      RuleVerdict(interface, rules[0], p);
      VerdictConcat(RuleEntries(interface, rules[0]), Compiled(interface, rules[1..]), p);
      CompilationPreservesVerdicts(interface, rules[1..], src, dst, p);
      ExactRuleVerdict(rules[0], src, dst, p);
    }
  }

  lemma ExactRuleVerdict(rule: Rule, src: Node, dst: Node, p: Packet)
    requires CompilesExactly(rule, src, dst, p)
    ensures MatchRule(rule, src, dst, Some(p.port), p.protocol) <==> RuleHits(rule, p)
    ensures RuleHits(rule, p) ==> (rule.action == "allow" <==> TargetAccepts(rule))
  {
  }

  /** What can be read off a rule: it names no nodes, it covers TCP, and either the policy and the
      chain both accept or neither does. */
  predicate Enforceable(rule: Rule) {
    && rule.source == "*" && rule.destination == "*"
    && (rule.protocols == [] || "tcp" in rule.protocols)
    && (rule.action == "allow" || Upper(rule.action) != "ALLOW")
  }

  lemma AllowAccepts()
    ensures Upper("allow") == "ALLOW" && Upper("deny") != "ALLOW"
  {
    assert Upper("deny")[0] == 'D';
  }

  lemma EnforceableCompilesExactly(rule: Rule, src: Node, dst: Node, p: Packet)
    requires Enforceable(rule) && p.protocol == "tcp"
    ensures CompilesExactly(rule, src, dst, p)
  {
    hide Upper;
    AllowAccepts();
  }

  /** A node without names and tags: only "*" selects it. */
  const ANONYMOUS := Node(None, None, None, [])

  lemma OnlyStarSelectsAnonymous(selector: string)
    ensures MatchNodeSelector(selector, ANONYMOUS) <==> selector == "*"
  {
  }

  /** The packet that hits a rule, if its port list is not empty the one for the first port. */
  function Hitting(interface: string, rule: Rule): (p: Packet)
    ensures RuleHits(rule, p) && p.interface == interface && p.protocol == "tcp"
  {
    Packet(interface, "tcp", if rule.ports == [] then 0 else rule.ports[0])
  }

  /** Chain and policy agree about one rule, for all nodes and all packets, or all TCP packets. */
  ghost predicate EnforcesRule(interface: string, rule: Rule, tcpOnly: bool) {
    forall src: Node, dst: Node, p: Packet | p.interface == interface && (tcpOnly ==> p.protocol == "tcp") ::
      ChainVerdict(Compiled(interface, [rule]), p) == FirstVerdict([rule], src, dst, Some(p.port), p.protocol)
  }

  lemma ExactBetweenAnonymous(interface: string, rule: Rule)
    requires CompilesExactly(rule, ANONYMOUS, ANONYMOUS, Hitting(interface, rule))
    ensures Enforceable(rule)
  {
    hide MatchNodeSelector, Upper;
    OnlyStarSelectsAnonymous(rule.source);
    OnlyStarSelectsAnonymous(rule.destination);
  }

  /** The chain enforces a rule on TCP exactly when the rule is enforceable. */
  lemma RuleEnforcedIff(interface: string, rule: Rule)
    ensures EnforcesRule(interface, rule, true) <==> Enforceable(rule)
  {
    hide CompilesExactly, Enforceable, Compiled, ChainVerdict, FirstVerdict;
    if EnforcesRule(interface, rule, true) {
      RuleAgreesIff(interface, rule, ANONYMOUS, ANONYMOUS, Hitting(interface, rule));
      ExactBetweenAnonymous(interface, rule);
    }
    if Enforceable(rule) {
      forall src, dst, p: Packet | p.interface == interface && p.protocol == "tcp"
        ensures ChainVerdict(Compiled(interface, [rule]), p)
             == FirstVerdict([rule], src, dst, Some(p.port), p.protocol)
      {
        EnforceableCompilesExactly(rule, src, dst, p);
        RuleAgreesIff(interface, rule, src, dst, p);
      }
    }
  }

  /** On all protocols a rule must, besides, cover every protocol if it has no ports and exactly TCP
      if it has some. */
  predicate EnforceableOnAll(rule: Rule) {
    && Enforceable(rule)
    && if rule.ports == [] then rule.protocols == []
       else rule.protocols != [] && forall i :: 0 <= i < |rule.protocols| ==> rule.protocols[i] == "tcp"
  }

  // A word longer than all of these is none of them.
  lemma {:induction false} OtherWord(words: seq<string>) returns (word: string)
    ensures forall w :: w in words ==> |w| < |word|
  {
    if words == [] {
      word := "u";
    } else {
      word := OtherWord(words[1..]);
      word := if |words[0]| < |word| then word else words[0] + "u";
    }
  }

  lemma EnforceableOnAllCompilesExactly(rule: Rule, src: Node, dst: Node, p: Packet)
    requires EnforceableOnAll(rule)
    ensures CompilesExactly(rule, src, dst, p)
  {
    hide Upper;
    AllowAccepts();
  }

  /** The same over every protocol. */
  lemma RuleEnforcedOnAllIff(interface: string, rule: Rule)
    ensures EnforcesRule(interface, rule, false) <==> EnforceableOnAll(rule)
  {
    hide CompilesExactly, Enforceable, Compiled, ChainVerdict, FirstVerdict;
    if EnforcesRule(interface, rule, false) {
      RuleAgreesIff(interface, rule, ANONYMOUS, ANONYMOUS, Hitting(interface, rule));
      ExactBetweenAnonymous(interface, rule);
      forall q: string ensures CompilesExactly(rule, ANONYMOUS, ANONYMOUS, Hitting(interface, rule).(protocol := q)) {
        RuleAgreesIff(interface, rule, ANONYMOUS, ANONYMOUS, Hitting(interface, rule).(protocol := q));
      }
      ProtocolsAreExact(interface, rule);
    }
    if EnforceableOnAll(rule) {
      forall src, dst, p: Packet | p.interface == interface
        ensures ChainVerdict(Compiled(interface, [rule]), p)
             == FirstVerdict([rule], src, dst, Some(p.port), p.protocol)
      {
        EnforceableOnAllCompilesExactly(rule, src, dst, p);
        RuleAgreesIff(interface, rule, src, dst, p);
      }
    }
  }

  lemma ProtocolsAreExact(interface: string, rule: Rule)
    requires Enforceable(rule)
    requires forall q ::
               CompilesExactly(rule, ANONYMOUS, ANONYMOUS, Hitting(interface, rule).(protocol := q))
    ensures EnforceableOnAll(rule)
  {
    hide Upper;
    var hit := Hitting(interface, rule);
    if rule.ports == [] {
      var other := OtherWord(rule.protocols);
      assert CompilesExactly(rule, ANONYMOUS, ANONYMOUS, hit.(protocol := other));
    } else {
      var other := OtherWord(["tcp"]);
      assert CompilesExactly(rule, ANONYMOUS, ANONYMOUS, hit.(protocol := other));
      forall i | 0 <= i < |rule.protocols| ensures rule.protocols[i] == "tcp" {
        assert CompilesExactly(rule, ANONYMOUS, ANONYMOUS, hit.(protocol := rule.protocols[i]));
      }
    }
  }

  /** A rule for one group: the chain accepts everyone's packets, the policy denies every node outside
      the group. */
  lemma GroupRuleExample(engine: ACLEngine, interface: string, group: string, src: Node, dst: Node, p: Packet)
    requires engine.rules == [Rule("group:" + group, "*", "allow", [], [])]
    requires group !in src.tags && p.interface == interface
    ensures ChainVerdict(Compiled(interface, engine.rules), p) == Some(true)
    ensures !engine.IsAllowed(src, dst, Some(p.port), p.protocol)
  {
    hide Compiled, ChainVerdict, MatchNodeSelector;
    var rule := Rule("group:" + group, "*", "allow", [], []);
    AllowAccepts();
    SelectorsSelect(group, src);
    CompiledHead(interface, [rule]);
    assert [rule][1..] == [];
    NoneCompiled(interface);
    assert Compiled(interface, [rule]) == RuleEntries(interface, rule);
    RuleVerdict(interface, rule, p);
    assert FirstVerdict([rule][1..], src, dst, Some(p.port), p.protocol) == None;
  }

  /** For enforceable rules and a TCP packet on the mesh interface: some entry matches exactly when
      some rule does, and then the chain accepts exactly when the policy allows. When none matches,
      the chain is silent, while the policy denies unless there are no rules at all. */
  lemma EnforceableRulesEnforced(engine: ACLEngine, interface: string, src: Node, dst: Node, p: Packet)
    requires p.interface == interface && p.protocol == "tcp"
    requires forall r :: r in engine.rules ==> Enforceable(r)
    ensures var verdict := ChainVerdict(Compiled(interface, engine.rules), p);
            && (verdict == None <==> forall r :: r in engine.rules ==> !MatchRule(r, src, dst, Some(p.port), "tcp"))
            && (verdict.Some? ==> (verdict.value <==> engine.IsAllowed(src, dst, Some(p.port), "tcp")))
            && (verdict.None? ==> (engine.IsAllowed(src, dst, Some(p.port), "tcp") <==> engine.rules == []))
  {
    hide MatchRule, Enforceable, CompilesExactly;
    var rules := engine.rules;
    forall r | r in rules ensures CompilesExactly(r, src, dst, p) {
      EnforceableCompilesExactly(r, src, dst, p);
    }
    CompilationPreservesVerdicts(interface, rules, src, dst, p);
    FirstVerdictIsFirst(rules, src, dst, Some(p.port), "tcp");
  }

  /** What is left of a rule in the chain: its ports, and whether its target accepts. */
  function Erased(rule: Rule): Rule {
    Rule("*", "*", if TargetAccepts(rule) then "allow" else "deny", rule.ports, [])
  }

  function ErasedAll(rules: seq<Rule>): (r: seq<Rule>)
    ensures |r| == |rules| && forall i :: 0 <= i < |r| ==> r[i] == Erased(rules[i])
  {
    seq(|rules|, i requires 0 <= i < |rules| => Erased(rules[i]))
  }

  lemma ErasedEntries(interface: string, rule: Rule)
    ensures RuleEntries(interface, Erased(rule)) == RuleEntries(interface, rule)
  {
    AllowAccepts();
  }

  lemma {:induction false} CompilationErases(interface: string, rules: seq<Rule>)
    ensures Compiled(interface, ErasedAll(rules)) == Compiled(interface, rules)
  {
    hide RuleEntries, Erased;
    if rules != [] {
      var n := |rules| - 1;
      CompilationErases(interface, rules[..n]);
      assert ErasedAll(rules)[..n] == ErasedAll(rules[..n]);
      ErasedEntries(interface, rules[n]);
    }
  }

  /** For all rules whatever, the chain enforces on TCP the policy with selectors and protocols
      erased: a rule meant for some nodes filters everyone's packets. */
  lemma ChainEnforcesErasedRules(interface: string, rules: seq<Rule>, src: Node, dst: Node, p: Packet)
    requires p.interface == interface && p.protocol == "tcp"
    ensures ChainVerdict(Compiled(interface, rules), p) ==
            FirstVerdict(ErasedAll(rules), src, dst, Some(p.port), "tcp")
  {
    CompilationErases(interface, rules);
    forall r | r in ErasedAll(rules) ensures CompilesExactly(r, src, dst, p) {
      AllowAccepts();
      EnforceableCompilesExactly(r, src, dst, p);
    }
    CompilationPreservesVerdicts(interface, ErasedAll(rules), src, dst, p);
  }

  lemma {:induction false} OtherInterface(chain: seq<Entry>, interface: string, p: Packet)
    requires p.interface != interface && forall i :: 0 <= i < |chain| ==> chain[i].interface == interface
    ensures ChainVerdict(chain, p) == None
  {
    if chain != [] {
      OtherInterface(chain[1..], interface, p);
    }
  }

  lemma {:induction false} CompiledForInterface(interface: string, rules: seq<Rule>)
    ensures forall i :: 0 <= i < |Compiled(interface, rules)| ==> Compiled(interface, rules)[i].interface == interface
  {
    if rules != [] {
      CompiledForInterface(interface, rules[..|rules| - 1]);
    }
  }

  /** The chain has no say on packets of other interfaces. */
  lemma OtherInterfacesPass(interface: string, rules: seq<Rule>, p: Packet)
    requires p.interface != interface
    ensures ChainVerdict(Compiled(interface, rules), p) == None
  {
    CompiledForInterface(interface, rules);
    OtherInterface(Compiled(interface, rules), interface, p);
  }

  function EntryCount(rules: seq<Rule>): nat {
    if rules == [] then 0
    else EntryCount(rules[1..]) + if rules[0].ports == [] then 1 else |rules[0].ports|
  }

  lemma {:induction false} CompiledLength(interface: string, rules: seq<Rule>)
    ensures |Compiled(interface, rules)| == EntryCount(rules)
  {
    if rules != [] {
      CompiledHead(interface, rules);
      CompiledLength(interface, rules[1..]);
    }
  }
}
