/** The generated block of the hosts file: domains grouped by address, one line per address. */
module HostsBlock {
  import opened Hosts
  import opened Outcomes
  import opened Sections
  import opened Text

  /** An entry of the record dictionary, in insertion order. */
  datatype Record = Record(hostname: string, ip: string)

  const DEFAULT_TLDS := ["cr", "mesh"]
  const DEFAULT_CONTROLLER := "100.64.0.1"

  /** An empty list stands for the default one. */
  function Chosen(tlds: seq<string>): (r: seq<string>)
    ensures r != []
  {
    if tlds == [] then DEFAULT_TLDS else tlds
  }

  function CleanTlds(tlds: seq<string>): (r: seq<string>)
    ensures r != [] && forall i :: 0 <= i < |r| ==> NoUpper(r[i])
  {
    var chosen := Chosen(tlds);
    seq(|chosen|, i requires 0 <= i < |chosen| => CleanTld(chosen[i]))
  }

  /** The names of one host: bare, and under every TLD. */
  function Forms(hostname: string, tlds: seq<string>): (r: seq<string>)
    ensures |r| == |tlds| + 1 && r[0] == Lower(hostname)
    ensures forall i :: 0 <= i < |tlds| ==> r[i + 1] == Lower(hostname) + "." + tlds[i]
  {
    [Lower(hostname)] + seq(|tlds|, i requires 0 <= i < |tlds| => Lower(hostname) + "." + tlds[i])
  }

  /** Distinct elements, in order of first appearance: the key order of a dictionary. */
  function Distinct(s: seq<string>): (r: seq<string>)
    ensures forall x :: x in r <==> x in s
    ensures forall i, j :: 0 <= i < j < |r| ==> r[i] != r[j]
  {
    if s == [] then []
    else
      var init, last := s[..|s| - 1], s[|s| - 1];
      assert s == init + [last];
      if last in init then Distinct(init) else Distinct(init) + [last]
  }

  function Ips(records: seq<Record>): (r: seq<string>)
    ensures |r| == |records| && forall i :: 0 <= i < |r| ==> r[i] == records[i].ip
  {
    seq(|records|, i requires 0 <= i < |records| => records[i].ip)
  }

  /** The names recorded for one address, record by record. */
  function NamesAt(records: seq<Record>, tlds: seq<string>, ip: string): seq<string> {
    if records == [] then []
    else
      var last := records[|records| - 1];
      NamesAt(records[..|records| - 1], tlds, ip) + if last.ip == ip then Forms(last.hostname, tlds) else []
  }

  function RegistryNames(tlds: seq<string>): (r: seq<string>)
    ensures |r| == |tlds| && forall i :: 0 <= i < |tlds| ==> r[i] == "registry." + tlds[i]
  {
    seq(|tlds|, i requires 0 <= i < |tlds| => "registry." + tlds[i])
  }

  /** Everything the block says about one address. */
  function DomainsAt(records: seq<Record>, tlds: seq<string>, controller: string, ip: string): seq<string> {
    NamesAt(records, tlds, ip) + if ip == controller then RegistryNames(tlds) else []
  }

  function Line(ip: string, domains: seq<string>): string {
    ip + "\t" + Join(SortedSet(domains), " ")
  }

  function IpOrder(records: seq<Record>, controller: string): seq<string> {
    Distinct(Ips(records) + [controller])
  }

  function LinesFor(records: seq<Record>, tlds: seq<string>, controller: string): (r: seq<string>)
    ensures |r| == |IpOrder(records, controller)|
  {
    var order := IpOrder(records, controller);
    seq(|order|, i requires 0 <= i < |order| => Line(order[i], DomainsAt(records, tlds, controller, order[i])))
  }

  function BlockOf(lines: seq<string>): string {
    Join([SECTION_START] + lines + [SECTION_END], "\n") + "\n"
  }

  function BlockFor(records: seq<Record>, activeTlds: seq<string>, controllerHost: Option<string>): string {
    var controller := if controllerHost.Some? then controllerHost.value else DEFAULT_CONTROLLER;
    BlockOf(LinesFor(records, CleanTlds(activeTlds), controller))
  }

  /** The grouping dictionary: its keys in insertion order, and the list at each key. */
  datatype IpMap = IpMap(order: seq<string>, names: map<string, seq<string>>)

  lemma DistinctStep(s: seq<string>, x: string)
    ensures Distinct(s + [x]) == if x in s then Distinct(s) else Distinct(s) + [x]
  {
    assert (s + [x])[..|s|] == s;
  }

  lemma RecordStep(records: seq<Record>, tlds: seq<string>, i: nat)
    requires i < |records|
    ensures Ips(records[..i + 1]) == Ips(records[..i]) + [records[i].ip]
    ensures forall ip :: NamesAt(records[..i + 1], tlds, ip) ==
                         NamesAt(records[..i], tlds, ip)
                         + if records[i].ip == ip then Forms(records[i].hostname, tlds) else []
  {
    assert records[..i + 1][..i] == records[..i];
  }

  /** The dictionary of these records: its keys in order of first appearance, and at each address
      exactly what they say about it. */
  ghost predicate Groups(m: IpMap, records: seq<Record>, tlds: seq<string>) {
    && m.order == Distinct(Ips(records))
    && (forall ip :: ip in m.names <==> ip in m.order)
    && (forall ip :: NamesAt(records, tlds, ip) == if ip in m.names then m.names[ip] else [])
  }

  lemma EmptyGroups(tlds: seq<string>)
    ensures Groups(IpMap([], map[]), [], tlds)
  {
  }

  /** Adds these names at an address, as a new key if need be. */
  function Extended(m: IpMap, ip: string, names: seq<string>): IpMap {
    if ip in m.names then m.(names := m.names[ip := m.names[ip] + names])
    else IpMap(m.order + [ip], m.names[ip := names])
  }

  lemma GroupStep(m: IpMap, records: seq<Record>, tlds: seq<string>, i: nat)
    requires i < |records| && Groups(m, records[..i], tlds)
    ensures Groups(Extended(m, records[i].ip, Forms(records[i].hostname, tlds)), records[..i + 1], tlds)
  {
    hide NamesAt, Forms, Ips, Distinct, Extended;
    var ip, forms := records[i].ip, Forms(records[i].hostname, tlds);
    var m' := Extended(m, ip, forms);
    RecordStep(records, tlds, i);
    NewOrder(m, Ips(records[..i]), ip, forms);
    forall other
      ensures NamesAt(records[..i + 1], tlds, other) == if other in m'.names then m'.names[other] else []
    {
      NewNames(m, ip, forms, other);
    }
  }

  lemma NewNames(m: IpMap, ip: string, names: seq<string>, other: string)
    ensures var m' := Extended(m, ip, names);
            (if other in m'.names then m'.names[other] else []) ==
            (if other in m.names then m.names[other] else []) + if ip == other then names else []
  {
    var before := if other in m.names then m.names[other] else [];
    assert [] + names == names && before + [] == before;
  }

  lemma NewOrder(m: IpMap, ips: seq<string>, ip: string, names: seq<string>)
    requires m.order == Distinct(ips) && forall x :: x in m.names <==> x in m.order
    ensures Extended(m, ip, names).order == Distinct(ips + [ip])
    ensures forall x :: x in Extended(m, ip, names).names <==> x in Extended(m, ip, names).order
  {
    hide Distinct;
    DistinctStep(ips, ip);
  }

  class HostsManager {
    /** Appends the names of one host to a list. */
    static method AppendForms(list: seq<string>, hostname: string, tlds: seq<string>) returns (r: seq<string>)
      ensures r == list + Forms(hostname, tlds)
    {
      var forms := Forms(hostname, tlds);
      var host := Lower(hostname);
      r := list + [host];
      for k := 0 to |tlds|
        invariant r == list + forms[..k + 1]
      {
        r := r + [host + "." + tlds[k]];
        assert forms[..k + 2] == forms[..k + 1] + [forms[k + 1]];
      }
      assert forms[..|tlds| + 1] == forms;
    }

    static method GroupByIp(records: seq<Record>, tlds: seq<string>) returns (m: IpMap)
      ensures Groups(m, records, tlds)
    {
      hide Groups, Forms;
      var order, names: map<string, seq<string>> := [], map[];
      EmptyGroups(tlds);
      for i := 0 to |records|
        invariant Groups(IpMap(order, names), records[..i], tlds)
      {
        var ip := records[i].ip;
        ghost var before := IpMap(order, names);
        if ip !in names {
          order, names := order + [ip], names[ip := []];
        }
        var list := AppendForms(names[ip], records[i].hostname, tlds);
        names := names[ip := list];
        assert names == before.names[ip := list];
        assert [] + Forms(records[i].hostname, tlds) == Forms(records[i].hostname, tlds);
        GroupStep(before, records, tlds, i);
      }
      assert records[..|records|] == records;
      m := IpMap(order, names);
    }

    /** Adds the registry names at the controller's address, each unless already there. */
    static method AddRegistry(list: seq<string>, tlds: seq<string>) returns (r: seq<string>)
      ensures forall y :: y in r <==> y in list + RegistryNames(tlds)
    {
      var registry := RegistryNames(tlds);
      r := list;
      for k := 0 to |tlds|
        invariant forall y :: y in r <==> y in list + registry[..k]
      {
        var name := "registry." + tlds[k];
        assert registry[..k + 1] == registry[..k] + [name];
        if name !in r {
          r := r + [name];
        }
      }
      assert registry[..|tlds|] == registry;
    }

    static method EmitLines(m: IpMap, records: seq<Record>, tlds: seq<string>, controller: string)
      returns (lines: seq<string>)
      requires tlds != [] && m.order == IpOrder(records, controller)
      requires forall ip :: ip in m.order ==> ip in m.names
      requires forall ip, y :: ip in m.order ==> (y in m.names[ip] <==> y in DomainsAt(records, tlds, controller, ip))
      ensures lines == LinesFor(records, tlds, controller)
    {
      hide IpOrder, DomainsAt, SortedSet;
      var order := m.order;
      lines := [];
      for i := 0 to |order|
        invariant |lines| == i
        invariant forall j :: 0 <= j < i ==> lines[j] == LinesFor(records, tlds, controller)[j]
      {
        var ip := order[i];
        var unique := SortedSet(m.names[ip]);
        SameSetSameLine(m.names[ip], DomainsAt(records, tlds, controller, ip));
        SomeDomain(records, tlds, controller, ip);
        if unique != [] {
          lines := lines + [ip + "\t" + Join(unique, " ")];
        }
      }
    }

    static method GenerateBlock(records: seq<Record>, activeTlds: seq<string>, controllerHost: Option<string>)
      returns (block: string)
      ensures block == BlockFor(records, activeTlds, controllerHost)
    {
      hide Distinct, NamesAt, Ips, RegistryNames, LinesFor, CleanTlds, SECTION_START, SECTION_END;
      var tlds := CleanTlds(activeTlds);
      var m := GroupByIp(records, tlds);
      var controller := if controllerHost.Some? then controllerHost.value else DEFAULT_CONTROLLER;
      DistinctStep(Ips(records), controller);
      if controller !in m.names {
        m := IpMap(m.order + [controller], m.names[controller := []]);
      }
      var withRegistry := AddRegistry(m.names[controller], tlds);
      m := m.(names := m.names[controller := withRegistry]);
      var lines := EmitLines(m, records, tlds, controller);
      block := Join([SECTION_START] + lines + [SECTION_END], "\n") + "\n";
    }

    /** The whole of `sync_hosts_file`, with the controller's host already parsed out of its URL. */
    static method SyncHostsFile(file: HostsFile, compile: TemplateCompiler, records: seq<Record>,
                                activeTlds: seq<string>, controllerHost: Option<string>)
      returns (ok: bool)
      modifies file`content
      ensures var block := BlockFor(records, activeTlds, controllerHost);
              && (ok <==> old(file.content).Some? && file.writable
                          && Rewritten(compile, old(file.content).value, block).Some?)
              && file.content == if ok then Rewritten(compile, old(file.content).value, block) else old(file.content)
    {
      if file.content.None? {
        return false;
      }
      var block := GenerateBlock(records, activeTlds, controllerHost);
      ok := file.Sync(compile, block);
    }
  }

  lemma SameSetSameLine(a: seq<string>, b: seq<string>)
    requires forall y :: y in a <==> y in b
    ensures SortedSet(a) == SortedSet(b)
  {
    SortedIsUnique(SortedSet(a), SortedSet(b));
  }

  // ----- What the block holds

  lemma {:induction false} NamesAtIff(records: seq<Record>, tlds: seq<string>, ip: string, name: string)
    ensures name in NamesAt(records, tlds, ip) <==>
            exists r :: r in records && r.ip == ip && name in Forms(r.hostname, tlds)
  {
    if records != [] {
      var init, last := records[..|records| - 1], records[|records| - 1];
      assert records == init + [last];
      NamesAtIff(init, tlds, ip, name);
    }
  }

  // Every address of the block has a name to show.
  lemma SomeDomain(records: seq<Record>, tlds: seq<string>, controller: string, ip: string)
    requires tlds != [] && ip in IpOrder(records, controller)
    ensures DomainsAt(records, tlds, controller, ip) != []
    ensures SortedSet(DomainsAt(records, tlds, controller, ip)) != []
  {
    var domains := DomainsAt(records, tlds, controller, ip);
    var name;
    if ip == controller {
      name := RegistryNames(tlds)[0];
    } else {
      var i :| 0 <= i < |records| && Ips(records)[i] == ip;
      name := Forms(records[i].hostname, tlds)[0];
      NamesAtIff(records, tlds, ip, name);
    }
    assert name in domains;
    assert name in SortedSet(domains);
  }

  lemma OrderHoldsExactly(records: seq<Record>, controller: string, ip: string)
    ensures ip in IpOrder(records, controller) <==> ip == controller || exists r :: r in records && r.ip == ip
  {
    var ips := Ips(records);
    assert ip in ips ==> exists r :: r in records && r.ip == ip by {
      if ip in ips {
        var i :| 0 <= i < |ips| && ips[i] == ip;
        assert records[i] in records;
      }
    }
    forall r | r in records && r.ip == ip ensures ip in ips {
      var i :| 0 <= i < |records| && records[i] == r;
      assert ips[i] == ip;
    }
  }

  lemma CleanTldsHold(activeTlds: seq<string>, tld: string)
    ensures tld in CleanTlds(activeTlds) <==> exists t :: t in Chosen(activeTlds) && tld == Lower(LStrip(t, '.'))
  {
    hide Chosen, Lower, LStrip;
    var chosen, clean := Chosen(activeTlds), CleanTlds(activeTlds);
    forall t | t in chosen ensures Lower(LStrip(t, '.')) in clean {
      var i :| 0 <= i < |chosen| && chosen[i] == t;
      assert clean[i] == CleanTld(chosen[i]);
    }
    if tld in clean {
      var i :| 0 <= i < |clean| && clean[i] == tld;
      assert chosen[i] in chosen && tld == CleanTld(chosen[i]);
    }
  }

  /** The host's name in lower case, bare or under one of the TLDs. */
  ghost predicate IsNameOf(name: string, hostname: string, tlds: seq<string>) {
    name == Lower(hostname) || exists t :: t in tlds && name == Lower(hostname) + "." + Lower(LStrip(t, '.'))
  }

  ghost predicate IsRegistryName(name: string, tlds: seq<string>) {
    exists t :: t in tlds && name == "registry." + Lower(LStrip(t, '.'))
  }

  lemma FormIsName(hostname: string, activeTlds: seq<string>, k: nat)
    requires k < |Forms(hostname, CleanTlds(activeTlds))|
    ensures IsNameOf(Forms(hostname, CleanTlds(activeTlds))[k], hostname, Chosen(activeTlds))
  {
    hide CleanTlds, Lower, LStrip, Chosen, Forms;
    if k > 0 {
      CleanTldsHold(activeTlds, CleanTlds(activeTlds)[k - 1]);
    }
  }

  lemma NameIsForm(name: string, hostname: string, activeTlds: seq<string>)
    requires IsNameOf(name, hostname, Chosen(activeTlds))
    ensures name in Forms(hostname, CleanTlds(activeTlds))
  {
    hide CleanTlds, Lower, LStrip, Chosen, Forms;
    var tlds, forms := CleanTlds(activeTlds), Forms(hostname, CleanTlds(activeTlds));
    if name == Lower(hostname) {
      assert forms[0] == name;
    } else {
      var t :| t in Chosen(activeTlds) && name == Lower(hostname) + "." + Lower(LStrip(t, '.'));
      CleanTldsHold(activeTlds, Lower(LStrip(t, '.')));
      var k :| 0 <= k < |tlds| && tlds[k] == Lower(LStrip(t, '.'));
      assert forms[k + 1] == name;
    }
  }

  lemma FormsAreNames(name: string, hostname: string, activeTlds: seq<string>)
    ensures name in Forms(hostname, CleanTlds(activeTlds)) <==> IsNameOf(name, hostname, Chosen(activeTlds))
  {
    hide CleanTlds, Chosen, Forms, IsNameOf;
    var forms := Forms(hostname, CleanTlds(activeTlds));
    if name in forms {
      var k :| 0 <= k < |forms| && forms[k] == name;
      FormIsName(hostname, activeTlds, k);
    }
    if IsNameOf(name, hostname, Chosen(activeTlds)) {
      NameIsForm(name, hostname, activeTlds);
    }
  }

  lemma RegistryNamesHold(name: string, activeTlds: seq<string>)
    ensures name in RegistryNames(CleanTlds(activeTlds)) <==> IsRegistryName(name, Chosen(activeTlds))
  {
    hide CleanTlds, Lower, LStrip, Chosen, RegistryNames;
    var tlds, names := CleanTlds(activeTlds), RegistryNames(CleanTlds(activeTlds));
    if name in names {
      var k :| 0 <= k < |names| && names[k] == name;
      CleanTldsHold(activeTlds, tlds[k]);
    }
    if IsRegistryName(name, Chosen(activeTlds)) {
      var t :| t in Chosen(activeTlds) && name == "registry." + Lower(LStrip(t, '.'));
      CleanTldsHold(activeTlds, Lower(LStrip(t, '.')));
      var k :| 0 <= k < |tlds| && tlds[k] == Lower(LStrip(t, '.'));
      assert names[k] == name;
    }
  }

  /** What a line says of its address: the names of the hosts recorded there, under the TLDs, and on the
      controller's line the registry names. */
  ghost predicate BelongsAt(name: string, records: seq<Record>, tlds: seq<string>, controller: string, ip: string) {
    || (exists r :: r in records && r.ip == ip && IsNameOf(name, r.hostname, tlds))
    || (ip == controller && IsRegistryName(name, tlds))
  }

  lemma DomainsBelong(records: seq<Record>, activeTlds: seq<string>, controller: string, ip: string, name: string)
    ensures name in DomainsAt(records, CleanTlds(activeTlds), controller, ip) <==>
            BelongsAt(name, records, Chosen(activeTlds), controller, ip)
  {
    hide CleanTlds, Chosen, Forms, IsNameOf, IsRegistryName, RegistryNames, NamesAt;
    NamesAtIff(records, CleanTlds(activeTlds), ip, name);
    RegistryNamesHold(name, activeTlds);
    forall r | r in records
      ensures name in Forms(r.hostname, CleanTlds(activeTlds)) <==> IsNameOf(name, r.hostname, Chosen(activeTlds))
    {
      FormsAreNames(name, r.hostname, activeTlds);
    }
  }

  /** The whole generated text: between the two markers one line for each recorded address and for the
      controller's, an address, a tab and names, strictly sorted: exactly those that belong there. */
  lemma BlockHoldsExactly(records: seq<Record>, activeTlds: seq<string>, controllerHost: Option<string>)
    returns (tlds: seq<string>, controller: string, order: seq<string>, names: seq<seq<string>>)
    ensures tlds == if activeTlds == [] then ["cr", "mesh"] else activeTlds
    ensures controller == if controllerHost.Some? then controllerHost.value else "100.64.0.1"
    ensures |names| == |order|
    ensures BlockFor(records, activeTlds, controllerHost) ==
            SECTION_START + "\n" + Terminated(Tabbed(order, names)) + SECTION_END + "\n"
    ensures forall i, j :: 0 <= i < j < |order| ==> order[i] != order[j]
    ensures forall ip :: ip in order <==> ip == controller || exists r :: r in records && r.ip == ip
    ensures forall i :: 0 <= i < |order| ==> StrictlySorted(names[i])
    ensures forall i, name :: 0 <= i < |order| ==>
              (name in names[i] <==> BelongsAt(name, records, tlds, controller, order[i]))
  {
    hide CleanTlds, BlockOf, DomainsAt, SortedSet, SECTION_START, SECTION_END, BelongsAt, Distinct, Ips;
    var clean := CleanTlds(activeTlds);
    tlds := Chosen(activeTlds);
    controller := if controllerHost.Some? then controllerHost.value else DEFAULT_CONTROLLER;
    order := IpOrder(records, controller);
    names := SortedNames(records, clean, controller);
    assert Tabbed(order, names) == LinesFor(records, clean, controller);
    BlockShapeText(LinesFor(records, clean, controller));
    forall ip ensures ip in order <==> ip == controller || exists r :: r in records && r.ip == ip {
      OrderHoldsExactly(records, controller, ip);
    }
    forall i, name | 0 <= i < |order|
      ensures name in names[i] <==> BelongsAt(name, records, tlds, controller, order[i])
    {
      DomainsBelong(records, activeTlds, controller, order[i], name);
    }
  }

  function SortedNames(records: seq<Record>, tlds: seq<string>, controller: string): (r: seq<seq<string>>)
    ensures |r| == |IpOrder(records, controller)|
    ensures forall i :: 0 <= i < |r| ==>
              r[i] == SortedSet(DomainsAt(records, tlds, controller, IpOrder(records, controller)[i]))
  {
    var order := IpOrder(records, controller);
    seq(|order|, i requires 0 <= i < |order| => SortedSet(DomainsAt(records, tlds, controller, order[i])))
  }

  function Tabbed(order: seq<string>, names: seq<seq<string>>): (lines: seq<string>)
    requires |names| == |order|
    ensures |lines| == |order|
    ensures forall i :: 0 <= i < |order| ==> lines[i] == order[i] + "\t" + Join(names[i], " ")
  {
    seq(|order|, i requires 0 <= i < |order| => order[i] + "\t" + Join(names[i], " "))
  }

  lemma BlockShapeText(lines: seq<string>)
    ensures BlockOf(lines) == SECTION_START + "\n" + Terminated(lines) + SECTION_END + "\n"
  {
    hide BlockOf, Terminated, SECTION_START, SECTION_END;
    BlockShape(lines);
  }

  lemma DistinctKeeps(s: seq<string>, x: string)
    ensures Distinct(s) <= Distinct(s + [x])
    ensures x !in s ==> Distinct(s + [x]) == Distinct(s) + [x]
  {
    assert (s + [x])[..|s|] == s;
  }

  // Elements stand in the order of their first appearance.
  lemma {:induction false} FirstAppearanceFirst(s: seq<string>, i: nat)
    requires i < |s| && s[i] !in s[..i]
    ensures Distinct(s[..i]) + [s[i]] <= Distinct(s)
    decreases |s|
  {
    hide Distinct;
    var n := |s| - 1;
    assert s == s[..n] + [s[n]];
    if i < n {
      assert s[..n][..i] == s[..i];
      FirstAppearanceFirst(s[..n], i);
      DistinctKeeps(s[..n], s[n]);
    } else {
      DistinctKeeps(s[..n], s[n]);
    }
  }

  /** The lines' order: an address that a record is the first to hold comes right behind those of the
      records before it, and the controller's comes last if no record holds it. */
  lemma LinesByAppearance(records: seq<Record>, controller: string, i: nat)
    requires i < |records|
    ensures (forall j :: 0 <= j < i ==> records[j].ip != records[i].ip) ==>
              Distinct(Ips(records[..i])) + [records[i].ip] <= IpOrder(records, controller)
    ensures (forall r :: r in records ==> r.ip != controller) ==>
              IpOrder(records, controller) == Distinct(Ips(records)) + [controller]
  {
    hide Distinct;
    var all := Ips(records) + [controller];
    assert all[..i] == Ips(records[..i]) && all[i] == records[i].ip;
    if forall j :: 0 <= j < i ==> records[j].ip != records[i].ip {
      FirstAppearanceFirst(all, i);
    }
    if forall r :: r in records ==> r.ip != controller {
      assert forall k :: 0 <= k < |records| ==> records[k] in records;
      DistinctKeeps(Ips(records), controller);
    }
  }

  // ----- The generated text is one well-delimited section

  ghost predicate MarkerFree(text: string) {
    !Contains(text, SECTION_START) && !Contains(text, SECTION_END)
  }

  lemma NoSeparatorInMarkers(marker: string)
    requires marker == SECTION_START || marker == SECTION_END
    ensures forall k :: 0 <= k < |marker| ==> marker[k] != '\n' && marker[k] != '\t'
  {
  }

  // A marker lies wholly before or wholly after a separator it does not contain.
  lemma SeparatorSplits(a: string, sep: char, b: string, marker: string, i: nat)
    requires forall k :: 0 <= k < |marker| ==> marker[k] != sep
    requires At(a + [sep] + b, marker, i)
    ensures At(a, marker, i) || (i > |a| && At(b, marker, i - |a| - 1))
  {
    var text := a + [sep] + b;
    if i + |marker| <= |a| {
      assert text == [] + a + ([sep] + b);
      AtInside([], a, [sep] + b, marker, i);
    } else if i <= |a| {
      AtReads(text, marker, i, |a| - i);
      assert false;
    } else {
      assert text == (a + [sep]) + b + [];
      AtInside(a + [sep], b, [], marker, i - |a| - 1);
    }
  }

  lemma NoUpperIsMarkerFree(text: string)
    requires NoUpper(text)
    ensures MarkerFree(text)
  {
    forall marker, i: nat | (marker == SECTION_START || marker == SECTION_END) && At(text, marker, i)
      ensures false
    {
      AtReads(text, marker, i, 2);
      assert IsUpper(marker[2]);
    }
  }

  lemma {:induction false} JoinedHasNoUpper(words: seq<string>, glue: string)
    requires NoUpper(glue) && forall w :: w in words ==> NoUpper(w)
    ensures NoUpper(Join(words, glue))
  {
    if |words| > 1 {
      JoinedHasNoUpper(words[1..], glue);
      assert NoUpper(words[0]);
    } else if |words| == 1 {
      assert NoUpper(words[0]);
    }
  }

  lemma DomainsHaveNoUpper(records: seq<Record>, tlds: seq<string>, controller: string, ip: string)
    requires forall t :: t in tlds ==> NoUpper(t)
    ensures forall name :: name in DomainsAt(records, tlds, controller, ip) ==> NoUpper(name)
  {
    forall name | name in DomainsAt(records, tlds, controller, ip) ensures NoUpper(name) {
      if name in NamesAt(records, tlds, ip) {
        NamesAtIff(records, tlds, ip, name);
        var r :| r in records && r.ip == ip && name in Forms(r.hostname, tlds);
        FormsHaveNoUpper(r.hostname, tlds, name);
      } else {
        RegistryHasNoUpper(tlds, name);
      }
    }
  }

  lemma RegistryHasNoUpper(tlds: seq<string>, name: string)
    requires name in RegistryNames(tlds) && forall t :: t in tlds ==> NoUpper(t)
    ensures NoUpper(name)
  {
    var k :| 0 <= k < |tlds| && name == RegistryNames(tlds)[k];
    NoUpperConcat("registry.", tlds[k]);
  }

  lemma FormsHaveNoUpper(hostname: string, tlds: seq<string>, name: string)
    requires name in Forms(hostname, tlds) && forall t :: t in tlds ==> NoUpper(t)
    ensures NoUpper(name)
  {
    var k :| 0 <= k < |tlds| + 1 && name == Forms(hostname, tlds)[k];
    if k > 0 {
      NoUpperConcat(Lower(hostname), ".");
      NoUpperConcat(Lower(hostname) + ".", tlds[k - 1]);
    }
  }

  lemma LineIsMarkerFree(ip: string, domains: seq<string>)
    requires MarkerFree(ip) && forall name :: name in domains ==> NoUpper(name)
    ensures MarkerFree(Line(ip, domains))
  {
    var names := Join(SortedSet(domains), " ");
    JoinedHasNoUpper(SortedSet(domains), " ");
    NoUpperIsMarkerFree(names);
    NoSeparatorInMarkers(SECTION_START);
    NoSeparatorInMarkers(SECTION_END);
    var line := ip + ['\t'] + names;
    assert Line(ip, domains) == line;
    var s, e := Find(line, SECTION_START, 0), Find(line, SECTION_END, 0);
    if s.Some? {
      SeparatorSplits(ip, '\t', names, SECTION_START, s.value);
    }
    if e.Some? {
      SeparatorSplits(ip, '\t', names, SECTION_END, e.value);
    }
  }

  ghost function Terminated(lines: seq<string>): string {
    if lines == [] then "" else lines[0] + "\n" + Terminated(lines[1..])
  }

  lemma {:induction false} JoinedIsTerminated(lines: seq<string>)
    requires lines != []
    ensures Join(lines, "\n") + "\n" == Terminated(lines)
  {
    if |lines| > 1 {
      JoinedIsTerminated(lines[1..]);
      assert Join(lines, "\n") + "\n" == lines[0] + "\n" + (Join(lines[1..], "\n") + "\n");
    }
  }

  lemma ConcatIsAssociative(a: string, b: string, c: string)
    ensures a + (b + c) == a + b + c
  {
  }

  lemma {:induction false} TerminatedConcat(a: seq<string>, b: seq<string>)
    ensures Terminated(a + b) == Terminated(a) + Terminated(b)
  {
    if a == [] {
      assert a + b == b;
    } else {
      TerminatedConcat(a[1..], b);
      assert (a + b)[0] == a[0] && (a + b)[1..] == a[1..] + b;
      ConcatIsAssociative(a[0] + "\n", Terminated(a[1..]), Terminated(b));
    }
  }

  lemma MarkerFreeHoldsNone(text: string, marker: string, i: nat)
    requires MarkerFree(text) && (marker == SECTION_START || marker == SECTION_END)
    ensures !At(text, marker, i)
  {
  }

  lemma {:induction false} MarkerAfterLines(lines: seq<string>, tail: string, marker: string, i: nat)
    requires marker == SECTION_START || marker == SECTION_END
    requires forall l :: l in lines ==> MarkerFree(l)
    requires At(Terminated(lines) + tail, marker, i)
    ensures i >= |Terminated(lines)| && At(tail, marker, i - |Terminated(lines)|)
  {
    hide At, SECTION_START, SECTION_END, Contains;
    if lines == [] {
      assert Terminated(lines) + tail == tail;
    } else {
      var rest := Terminated(lines[1..]) + tail;
      assert Terminated(lines) + tail == lines[0] + ['\n'] + rest;
      NoSeparatorInMarkers(marker);
      SeparatorSplits(lines[0], '\n', rest, marker, i);
      MarkerFreeHoldsNone(lines[0], marker, i);
      MarkerAfterLines(lines[1..], tail, marker, i - |lines[0]| - 1);
    }
  }

  lemma BlockShape(lines: seq<string>)
    ensures BlockOf(lines) == SECTION_START + ['\n'] + (Terminated(lines) + (SECTION_END + ['\n'] + []))
  {
    hide SECTION_START, SECTION_END, Join;
    var all := [SECTION_START] + lines + [SECTION_END];
    JoinedIsTerminated(all);
    TerminatedConcat([SECTION_START] + lines, [SECTION_END]);
    TerminatedConcat([SECTION_START], lines);
    assert Terminated([SECTION_START]) == SECTION_START + "\n";
    assert Terminated([SECTION_END]) == SECTION_END + "\n";
  }

  lemma NothingHoldsNoMarker(marker: string, i: int)
    requires marker == SECTION_START || marker == SECTION_END
    ensures !At([], marker, i)
  {
  }

  lemma EndIsNotStart()
    ensures SECTION_END != SECTION_START
  {
  }

  lemma MarkerInBlock(lines: seq<string>, marker: string, i: nat)
    requires marker == SECTION_START || marker == SECTION_END
    requires forall l :: l in lines ==> MarkerFree(l)
    requires At(BlockOf(lines), marker, i)
    ensures i == if marker == SECTION_START then 0 else |BlockOf(lines)| - |SECTION_END| - 1
  {
    hide At, BlockOf, Terminated, MarkerFree, SECTION_START, SECTION_END;
    var tail := SECTION_END + ['\n'] + [];
    BlockShape(lines);
    NoSeparatorInMarkers(marker);
    SeparatorSplits(SECTION_START, '\n', Terminated(lines) + tail, marker, i);
    if At(SECTION_START, marker, i) {
      MarkerInMarker(SECTION_START, marker, i);
    } else {
      var j := i - |SECTION_START| - 1;
      MarkerAfterLines(lines, tail, marker, j);
      var k := j - |Terminated(lines)|;
      SeparatorSplits(SECTION_END, '\n', [], marker, k);
      NothingHoldsNoMarker(marker, k - |SECTION_END| - 1);
      EndIsNotStart();
      MarkerInMarker(SECTION_END, marker, k);
    }
  }

  lemma MarkerInMarker(text: string, marker: string, i: nat)
    requires text == SECTION_START || text == SECTION_END
    requires marker == SECTION_START || marker == SECTION_END
    requires At(text, marker, i)
    ensures text == marker && i == 0
  {
    AtReads(text, marker, i, 0);
    MarkersStartWithHash(text, i);
    AtReads(text, marker, i, 2);
  }

  lemma BlockEnds(lines: seq<string>)
    ensures var b := BlockOf(lines);
            && |b| > |SECTION_START| + |SECTION_END| && b[|b| - 1] == '\n'
            && At(b, SECTION_START, 0) && At(b, SECTION_END, |b| - |SECTION_END| - 1)
  {
    hide BlockOf, Terminated, SECTION_START, SECTION_END;
    var mid := Terminated(lines);
    BlockShape(lines);
    assert BlockOf(lines) == [] + SECTION_START + (['\n'] + mid + SECTION_END + ['\n']);
    AtInside([], SECTION_START, ['\n'] + mid + SECTION_END + ['\n'], SECTION_START, 0);
    var front := SECTION_START + ['\n'] + mid;
    assert BlockOf(lines) == front + SECTION_END + ['\n'];
    AtInside(front, SECTION_END, ['\n'], SECTION_END, 0);
  }

  lemma MarkerFreeLinesMakeABlock(lines: seq<string>)
    requires forall l :: l in lines ==> MarkerFree(l)
    ensures IsBlock(BlockOf(lines))
  {
    hide At, BlockOf, MarkerFree, SECTION_START, SECTION_END;
    var b := BlockOf(lines);
    BlockEnds(lines);
    forall i | At(b, SECTION_START, i) ensures i == 0 {
      AtEnds(b, SECTION_START, i);
      MarkerInBlock(lines, SECTION_START, i);
    }
    forall i | At(b, SECTION_END, i) ensures i == |b| - |SECTION_END| - 1 {
      AtEnds(b, SECTION_END, i);
      EndIsNotStart();
      MarkerInBlock(lines, SECTION_END, i);
    }
  }

  /** Whatever the host names and TLDs, the generated block is one section, as long as no address
      text contains a marker: names are in lower case, and the markers are not. */
  lemma GeneratedBlockIsBlock(records: seq<Record>, activeTlds: seq<string>, controllerHost: Option<string>)
    requires forall r :: r in records ==> MarkerFree(r.ip)
    requires controllerHost.Some? ==> MarkerFree(controllerHost.value)
    ensures IsBlock(BlockFor(records, activeTlds, controllerHost))
  {
    hide CleanTlds, BlockOf, MarkerFree, Line, DomainsAt, IpOrder, IsBlock;
    var tlds := CleanTlds(activeTlds);
    var controller := if controllerHost.Some? then controllerHost.value else DEFAULT_CONTROLLER;
    var lines := LinesFor(records, tlds, controller);
    assert MarkerFree(controller) by {
      if controllerHost.None? {
        NoUpperIsMarkerFree(DEFAULT_CONTROLLER);
      }
    }
    forall l | l in lines ensures MarkerFree(l) {
      var i :| 0 <= i < |lines| && lines[i] == l;
      var ip := IpOrder(records, controller)[i];
      OrderHoldsExactly(records, controller, ip);
      DomainsHaveNoUpper(records, tlds, controller, ip);
      LineIsMarkerFree(ip, DomainsAt(records, tlds, controller, ip));
    }
    MarkerFreeLinesMakeABlock(lines);
  }

  // ----- Two syncs of a daemon

  lemma LowerKeepsPlain(name: string)
    requires '\\' !in name
    ensures '\\' !in Lower(name)
  {
  }

  lemma {:induction false} JoinedIsPlain(words: seq<string>, glue: string)
    requires '\\' !in glue && forall w :: w in words ==> '\\' !in w
    ensures '\\' !in Join(words, glue)
  {
    if |words| > 1 {
      JoinedIsPlain(words[1..], glue);
    }
  }

  lemma FormsArePlain(hostname: string, tlds: seq<string>)
    requires '\\' !in hostname && forall t :: t in tlds ==> '\\' !in t
    ensures forall name :: name in Forms(hostname, tlds) ==> '\\' !in name
  {
    LowerKeepsPlain(hostname);
    forall name | name in Forms(hostname, tlds) ensures '\\' !in name {
      var k :| 0 <= k < |tlds| + 1 && name == Forms(hostname, tlds)[k];
    }
  }

  lemma DomainsArePlain(records: seq<Record>, tlds: seq<string>, controller: string, ip: string)
    requires forall r :: r in records ==> '\\' !in r.hostname
    requires forall t :: t in tlds ==> '\\' !in t
    ensures forall name :: name in DomainsAt(records, tlds, controller, ip) ==> '\\' !in name
  {
    hide Forms;
    forall name | name in DomainsAt(records, tlds, controller, ip) ensures '\\' !in name {
      if name in NamesAt(records, tlds, ip) {
        NamesAtIff(records, tlds, ip, name);
        var r :| r in records && r.ip == ip && name in Forms(r.hostname, tlds);
        FormsArePlain(r.hostname, tlds);
      } else {
        var k :| 0 <= k < |tlds| && name == RegistryNames(tlds)[k];
      }
    }
  }

  lemma LineIsPlain(ip: string, domains: seq<string>)
    requires '\\' !in ip && forall name :: name in domains ==> '\\' !in name
    ensures '\\' !in Line(ip, domains)
  {
    JoinedIsPlain(SortedSet(domains), " ");
  }

  /** No address text holds a marker, and no text a backslash. */
  ghost predicate Harmless(records: seq<Record>, activeTlds: seq<string>, controllerHost: Option<string>) {
    && (forall r :: r in records ==> MarkerFree(r.ip) && '\\' !in r.ip && '\\' !in r.hostname)
    && (forall t :: t in activeTlds ==> '\\' !in t)
    && (controllerHost.Some? ==> MarkerFree(controllerHost.value) && '\\' !in controllerHost.value)
  }

  lemma DefaultTldsArePlain()
    ensures forall i :: 0 <= i < |DEFAULT_TLDS| ==> '\\' !in DEFAULT_TLDS[i]
  {
  }

  lemma CleanTldIsPlain(tld: string)
    requires '\\' !in tld
    ensures '\\' !in CleanTld(tld)
  {
    LowerKeepsPlain(LStrip(tld, '.'));
  }

  lemma CleanTldsArePlain(activeTlds: seq<string>)
    requires forall t :: t in activeTlds ==> '\\' !in t
    ensures forall t :: t in CleanTlds(activeTlds) ==> '\\' !in t
  {
    hide DEFAULT_TLDS, CleanTld;
    var chosen := Chosen(activeTlds);
    DefaultTldsArePlain();
    forall t | t in CleanTlds(activeTlds) ensures '\\' !in t {
      var i :| 0 <= i < |chosen| && t == CleanTld(chosen[i]);
      CleanTldIsPlain(chosen[i]);
    }
  }

  lemma HarmlessBlockIsPlain(records: seq<Record>, activeTlds: seq<string>, controllerHost: Option<string>)
    requires Harmless(records, activeTlds, controllerHost)
    ensures '\\' !in BlockFor(records, activeTlds, controllerHost)
  {
    hide CleanTlds, DomainsAt, MarkerFree, Line, IpOrder, Join;
    var tlds := CleanTlds(activeTlds);
    var controller := if controllerHost.Some? then controllerHost.value else DEFAULT_CONTROLLER;
    var lines := LinesFor(records, tlds, controller);
    CleanTldsArePlain(activeTlds);
    forall l | l in lines ensures '\\' !in l {
      var i :| 0 <= i < |lines| && lines[i] == l;
      var ip := IpOrder(records, controller)[i];
      OrderHoldsExactly(records, controller, ip);
      DomainsArePlain(records, tlds, controller, ip);
      LineIsPlain(ip, DomainsAt(records, tlds, controller, ip));
    }
    JoinedIsPlain([SECTION_START] + lines + [SECTION_END], "\n");
  }

  /** Two syncs, each from its own records, TLDs and controller: the second alone decides, exactly
      when the file did not hold a start marker without an end marker. */
  lemma SyncHostsLastWriteWins(compile: TemplateCompiler, text: string,
                               r1: seq<Record>, tlds1: seq<string>, host1: Option<string>,
                               r2: seq<Record>, tlds2: seq<string>, host2: Option<string>)
    requires CompilesPlainText(compile)
    requires Harmless(r1, tlds1, host1) && Harmless(r2, tlds2, host2)
    ensures var b1, b2 := BlockFor(r1, tlds1, host1), BlockFor(r2, tlds2, host2);
            var first := Rewritten(compile, text, b1);
            && first.Some?
            && (Rewritten(compile, first.value, b2) == Rewritten(compile, text, b2) <==> !StaleStart(text))
  {
    hide BlockFor, StaleStart, Synced, Rewritten, MarkerFree, IsBlock, CompilesPlainText;
    var b1, b2 := BlockFor(r1, tlds1, host1), BlockFor(r2, tlds2, host2);
    HarmlessBlockIsPlain(r1, tlds1, host1);
    HarmlessBlockIsPlain(r2, tlds2, host2);
    GeneratedBlockIsBlock(r1, tlds1, host1);
    GeneratedBlockIsBlock(r2, tlds2, host2);
    PlainBlockIsSynced(compile, text, b1);
    PlainBlockIsSynced(compile, text, b2);
    PlainBlockIsSynced(compile, Synced(text, b1), b2);
    LastWriteWinsIff(text, b1, b2);
  }
}
