/** The standalone DNS server's record cache, filled from the controller on a miss. */
module DnsCache {
  import opened Outcomes
  import opened Text

  datatype HostRecord = HostRecord(hostname: string, meshIpv4: string)

  /** What the controller answered to the two requests of one fetch; None for a failed request. */
  datatype Fetch = Fetch(nodes: Option<seq<HostRecord>>, tlds: Option<seq<string>>)

  const LOCAL_HOSTS := ["localhost", "127.0.0.1", "0.0.0.0"]
  const DEFAULT_CONTROLLER := "100.64.0.1"

  /** `domain.lower().strip(".")` */
  function CleanDomain(domain: string): string {
    RStripChar(LStrip(Lower(domain), '.'), '.')
  }

  /** Leading and trailing dots do not change which name is asked for. */
  lemma CleanDomainIgnoresDots(domain: string)
    ensures CleanDomain("." + domain) == CleanDomain(domain)
    ensures CleanDomain(domain + ".") == CleanDomain(domain)
  {
    var s := Lower(domain);
    assert Lower("." + domain) == "." + s;
    assert Lower(domain + ".") == s + ".";
    assert ("." + s)[1..] == s;
    StripTrailingDot(s);
  }

  /** The name asked for is the domain in lower case between its outermost dots. */
  lemma CleanDomainExactly(domain: string) returns (before: string, after: string)
    ensures Lower(domain) == before + CleanDomain(domain) + after
    ensures forall c :: c in before || c in after ==> c == '.'
    ensures var name := CleanDomain(domain); name == "" || (name[0] != '.' && name[|name| - 1] != '.')
  {
    hide Lower, LStrip, RStripChar;
    var s := Lower(domain);
    var left := LStrip(s, '.');
    var name := RStripChar(left, '.');
    before, after := s[..|s| - |left|], left[|name|..];
    assert left == name + after && s == before + left;
    if name != "" {
      assert name[0] == left[0];
    }
  }

  lemma StripOneDot(s: string)
    ensures RStripChar(s + ".", '.') == RStripChar(s, '.')
  {
    assert (s + ".")[..|s|] == s;
  }

  lemma {:induction false} StripTrailingDot(s: string)
    ensures RStripChar(LStrip(s + ".", '.'), '.') == RStripChar(LStrip(s, '.'), '.')
  {
    hide RStripChar;
    if s == "" {
      assert LStrip(s + ".", '.') == LStrip(s, '.');
    } else if s[0] == '.' {
      assert (s + ".")[1..] == s[1..] + ".";
      StripTrailingDot(s[1..]);
    } else {
      StripOneDot(s);
    }
  }

  /** The address served for registry names; an empty host is no host. */
  function ControllerIp(host: Option<string>): string {
    if host.None? || host.value == "" || host.value in LOCAL_HOSTS then DEFAULT_CONTROLLER else host.value
  }

  function WithNode(m: map<string, string>, n: HostRecord): map<string, string> {
    var h := Lower(n.hostname);
    m[h := n.meshIpv4][h + ".cr" := n.meshIpv4][h + ".mesh" := n.meshIpv4]
  }

  function WithNodes(m: map<string, string>, nodes: seq<HostRecord>): map<string, string> {
    if nodes == [] then m
    else WithNode(WithNodes(m, nodes[..|nodes| - 1]), nodes[|nodes| - 1])
  }

  function WithTld(m: map<string, string>, tld: string, controllerIp: string): map<string, string> {
    m["registry." + CleanTld(tld) := controllerIp]["registry" := controllerIp]
  }

  function WithTlds(m: map<string, string>, tlds: seq<string>, controllerIp: string): map<string, string> {
    if tlds == [] then m
    else WithTld(WithTlds(m, tlds[..|tlds| - 1], controllerIp), tlds[|tlds| - 1], controllerIp)
  }

  /** The table a fetch describes, built from scratch. */
  function Table(f: Fetch, controllerIp: string): map<string, string> {
    if f.tlds.Some? then WithTlds(NodeTable(f), f.tlds.value, controllerIp) else NodeTable(f)
  }

  function Get(m: map<string, string>, key: string): Option<string> {
    if key in m then Some(m[key]) else None
  }

  class PyMeshDNSServer {
    const controllerHost: Option<string>
    var recordsCache: map<string, string>

    constructor (controllerHost: Option<string>)
      ensures this.controllerHost == controllerHost && recordsCache == map[]
    {
      this.controllerHost, recordsCache := controllerHost, map[];
    }

    /** `fetch` is what the controller would answer now; it is asked only on a miss. */
    method ResolveCustomTld(domain: string, fetch: Fetch) returns (r: Option<string>)
      modifies this`recordsCache
      ensures recordsCache == AfterQuery(old(recordsCache), ControllerIp(controllerHost), Query(domain, fetch))
      ensures r == Get(recordsCache, CleanDomain(domain))
    {
      hide Lower, CleanTld, CleanDomain, WithNodes, WithTlds, Table, ControllerIp;
      var key := CleanDomain(domain);
      if key in recordsCache {
        return Some(recordsCache[key]);
      }
      ghost var before := recordsCache;
      var ip := ControllerIp(controllerHost);
      TableStart(before, fetch, ip);
      if fetch.nodes.Some? {
        var nodes := fetch.nodes.value;
        for i := 0 to |nodes|
          invariant recordsCache == before + WithNodes(map[], nodes[..i])
        {
          NodeStep(before, nodes, i);
          var h := Lower(nodes[i].hostname);
          recordsCache := recordsCache[h := nodes[i].meshIpv4];
          recordsCache := recordsCache[h + ".cr" := nodes[i].meshIpv4];
          recordsCache := recordsCache[h + ".mesh" := nodes[i].meshIpv4];
        }
        assert nodes[..|nodes|] == nodes;
      }
      if fetch.tlds.Some? {
        var tlds := fetch.tlds.value;
        for i := 0 to |tlds|
          invariant recordsCache == before + WithTlds(NodeTable(fetch), tlds[..i], ip)
        {
          TldStep(before, NodeTable(fetch), tlds, i, ip);
          recordsCache := recordsCache["registry." + CleanTld(tlds[i]) := ip];
          recordsCache := recordsCache["registry" := ip];
        }
        assert tlds[..|tlds|] == tlds;
      }
      return Get(recordsCache, key);
    }
  }

  function NodeTable(f: Fetch): map<string, string> {
    if f.nodes.Some? then WithNodes(map[], f.nodes.value) else map[]
  }

  lemma TableStart(before: map<string, string>, f: Fetch, ip: string)
    ensures f.nodes.Some? ==> before == before + WithNodes(map[], f.nodes.value[..0])
    ensures f.nodes.None? ==> before == before + NodeTable(f)
    ensures f.tlds.Some? ==> NodeTable(f) == WithTlds(NodeTable(f), f.tlds.value[..0], ip)
    ensures Table(f, ip) == if f.tlds.Some? then WithTlds(NodeTable(f), f.tlds.value, ip) else NodeTable(f)
  {
  }

  lemma MergeOne(before: map<string, string>, table: map<string, string>, key: string, value: string)
    ensures before + table[key := value] == (before + table)[key := value]
  {
  }

  lemma NodeStep(before: map<string, string>, nodes: seq<HostRecord>, i: nat)
    requires i < |nodes|
    ensures var h := Lower(nodes[i].hostname);
            var ip := nodes[i].meshIpv4;
            before + WithNodes(map[], nodes[..i + 1]) ==
            (before + WithNodes(map[], nodes[..i]))[h := ip][h + ".cr" := ip][h + ".mesh" := ip]
  {
    hide Lower;
    assert nodes[..i + 1][..i] == nodes[..i];
    var h, ip := Lower(nodes[i].hostname), nodes[i].meshIpv4;
    var t := WithNodes(map[], nodes[..i]);
    MergeOne(before, t, h, ip);
    MergeOne(before, t[h := ip], h + ".cr", ip);
    MergeOne(before, t[h := ip][h + ".cr" := ip], h + ".mesh", ip);
  }

  lemma TldStep(before: map<string, string>, table: map<string, string>, tlds: seq<string>, i: nat, ip: string)
    requires i < |tlds|
    ensures before + WithTlds(table, tlds[..i + 1], ip) ==
            (before + WithTlds(table, tlds[..i], ip))["registry." + CleanTld(tlds[i]) := ip]["registry" := ip]
  {
    hide CleanTld;
    assert tlds[..i + 1][..i] == tlds[..i];
    var t := WithTlds(table, tlds[..i], ip);
    var key := "registry." + CleanTld(tlds[i]);
    MergeOne(before, t, key, ip);
    MergeOne(before, t[key := ip], "registry", ip);
  }

  // ----- Runs of queries

  datatype Query = Query(domain: string, fetch: Fetch)

  predicate Misses(cache: map<string, string>, q: Query) {
    CleanDomain(q.domain) !in cache
  }

  /** A hit leaves the cache alone; a miss merges the fetched table over it. */
  function AfterQuery(cache: map<string, string>, controllerIp: string, q: Query): map<string, string> {
    if Misses(cache, q) then cache + Table(q.fetch, controllerIp) else cache
  }

  function AfterQueries(queries: seq<Query>, controllerIp: string): map<string, string> {
    if queries == [] then map[]
    else AfterQuery(AfterQueries(queries[..|queries| - 1], controllerIp), controllerIp, queries[|queries| - 1])
  }

  /** The answer to the last query of a run. */
  function LastAnswer(queries: seq<Query>, controllerIp: string): Option<string>
    requires queries != []
  {
    Get(AfterQueries(queries, controllerIp), CleanDomain(queries[|queries| - 1].domain))
  }

  /** Against a controller that always answers the same, the cache is the table or still empty. */
  lemma {:induction false} CacheIsTableOrEmpty(queries: seq<Query>, f: Fetch, controllerIp: string)
    requires forall q :: q in queries ==> q.fetch == f
    ensures AfterQueries(queries, controllerIp) == if queries == [] then map[] else Table(f, controllerIp)
  {
    hide Table, CleanDomain;
    if queries != [] {
      var n := |queries| - 1;
      CacheIsTableOrEmpty(queries[..n], f, controllerIp);
      var table := Table(f, controllerIp);
      assert map[] + table == table && table + table == table;
      assert queries[n] in queries;
    }
  }

  /** So every answer of every run is the one a table built from scratch would give. */
  lemma CacheRefinesTable(queries: seq<Query>, f: Fetch, controllerIp: string)
    requires queries != [] && forall q :: q in queries ==> q.fetch == f
    ensures LastAnswer(queries, controllerIp) ==
            Get(Table(f, controllerIp), CleanDomain(queries[|queries| - 1].domain))
  {
    CacheIsTableOrEmpty(queries, f, controllerIp);
  }

  /** Query `i` of the run missed, and its fetch wrote the key. */
  ghost predicate Wrote(queries: seq<Query>, controllerIp: string, i: nat, key: string) {
    && i < |queries|
    && Misses(AfterQueries(queries[..i], controllerIp), queries[i])
    && key in Table(queries[i].fetch, controllerIp)
  }

  /** Among the first `n` queries, the last whose fetch wrote the key. */
  ghost function LastWriter(queries: seq<Query>, controllerIp: string, n: nat, key: string): (r: Option<nat>)
    requires n <= |queries|
    ensures r.Some? ==> r.value < n && Wrote(queries, controllerIp, r.value, key)
  {
    if n == 0 then None
    else if Wrote(queries, controllerIp, n - 1, key) then Some(n - 1)
    else LastWriter(queries, controllerIp, n - 1, key)
  }

  lemma {:induction false} NoLaterWriter(queries: seq<Query>, controllerIp: string, n: nat, key: string, i: nat)
    requires i < n <= |queries|
    ensures Wrote(queries, controllerIp, i, key) ==>
              LastWriter(queries, controllerIp, n, key).Some? && i <= LastWriter(queries, controllerIp, n, key).value
  {
    hide Wrote;
    if !Wrote(queries, controllerIp, n - 1, key) && i < n - 1 {
      NoLaterWriter(queries, controllerIp, n - 1, key, i);
    }
  }

  /** While the controller changes: after any number of queries the cache holds a key exactly when
      some fetch wrote it, with the value of the last fetch that did. */
  lemma {:induction false} CacheHoldsLastFetched(queries: seq<Query>, controllerIp: string, n: nat, key: string)
    requires n <= |queries|
    ensures Get(AfterQueries(queries[..n], controllerIp), key) ==
            match LastWriter(queries, controllerIp, n, key)
            case None => None
            case Some(i) => Some(Table(queries[i].fetch, controllerIp)[key])
  {
    hide Table, CleanDomain;
    if n > 0 {
      assert queries[..n][..n - 1] == queries[..n - 1];
      CacheHoldsLastFetched(queries, controllerIp, n - 1, key);
    }
  }

  // ----- What the table holds

  predicate NodeAnswers(n: HostRecord, key: string) {
    var h := Lower(n.hostname);
    key == h || key == h + ".cr" || key == h + ".mesh"
  }

  predicate RegistryKey(tlds: seq<string>, key: string) {
    tlds != [] && (key == "registry" || exists i :: 0 <= i < |tlds| && key == "registry." + CleanTld(tlds[i]))
  }

  /** The last node that answers to the name. */
  function LastNode(nodes: seq<HostRecord>, key: string): Option<string> {
    if nodes == [] then None
    else if NodeAnswers(nodes[|nodes| - 1], key) then Some(nodes[|nodes| - 1].meshIpv4)
    else LastNode(nodes[..|nodes| - 1], key)
  }

  /** Node `i` is the last one that answers to the name. */
  predicate IsLastNode(nodes: seq<HostRecord>, key: string, i: nat) {
    i < |nodes| && NodeAnswers(nodes[i], key) && forall j :: i < j < |nodes| ==> !NodeAnswers(nodes[j], key)
  }

  lemma {:induction false} LastNodeIsLast(nodes: seq<HostRecord>, key: string)
    ensures match LastNode(nodes, key)
            case None => forall i :: 0 <= i < |nodes| ==> !NodeAnswers(nodes[i], key)
            case Some(ip) => exists i: nat :: IsLastNode(nodes, key, i) && nodes[i].meshIpv4 == ip
  {
    hide NodeAnswers;
    if nodes != [] {
      var n := |nodes| - 1;
      LastNodeIsLast(nodes[..n], key);
      if NodeAnswers(nodes[n], key) {
        assert IsLastNode(nodes, key, n);
      } else if LastNode(nodes[..n], key).Some? {
        var i: nat :| IsLastNode(nodes[..n], key, i) && nodes[..n][i].meshIpv4 == LastNode(nodes[..n], key).value;
        assert IsLastNode(nodes, key, i);
      } else {
        forall i | 0 <= i < |nodes| ensures !NodeAnswers(nodes[i], key) {
          assert i < n ==> nodes[i] == nodes[..n][i];
        }
      }
    }
  }

  lemma {:induction false} WithNodesHoldsLast(nodes: seq<HostRecord>, key: string)
    ensures Get(WithNodes(map[], nodes), key) == LastNode(nodes, key)
  {
    hide Lower;
    if nodes != [] {
      WithNodesHoldsLast(nodes[..|nodes| - 1], key);
    }
  }

  lemma {:induction false} WithTldsHolds(m: map<string, string>, tlds: seq<string>, ip: string, key: string)
    ensures Get(WithTlds(m, tlds, ip), key) == if RegistryKey(tlds, key) then Some(ip) else Get(m, key)
  {
    hide CleanTld;
    if tlds != [] {
      var n := |tlds| - 1;
      WithTldsHolds(m, tlds[..n], ip, key);
      if RegistryKey(tlds, key) && key != "registry" && key != "registry." + CleanTld(tlds[n]) {
        var i :| 0 <= i < |tlds| && key == "registry." + CleanTld(tlds[i]);
        assert tlds[..n][i] == tlds[i];
      }
    }
  }

  /** A registry name never resolves to an address of the asking host itself: not to a local one, and not
      to nothing. It is the controller's host where that is anything else, and the default otherwise. */
  lemma RegistryAddress(host: Option<string>, f: Fetch, key: string)
    requires f.tlds.Some? && RegistryKey(f.tlds.value, key)
    ensures var r := Get(Table(f, ControllerIp(host)), key);
            && r.Some? && r.value !in ["", "localhost", "127.0.0.1", "0.0.0.0"]
            && (host.Some? && host.value !in ["", "localhost", "127.0.0.1", "0.0.0.0"] ==> r == host)
            && (host.None? || host.value in ["", "localhost", "127.0.0.1", "0.0.0.0"] ==> r == Some("100.64.0.1"))
  {
    hide RegistryKey, NodeTable;
    WithTldsHolds(NodeTable(f), f.tlds.value, ControllerIp(host), key);
  }

  /** A lookup in the table: registry names give the controller, other names the last node that
      answers to them in lower case, bare or under ".cr" or ".mesh". */
  lemma TableLookup(nodes: seq<HostRecord>, tlds: seq<string>, controllerIp: string, key: string)
    ensures Get(Table(Fetch(Some(nodes), Some(tlds)), controllerIp), key) ==
            if RegistryKey(tlds, key) then Some(controllerIp) else LastNode(nodes, key)
    ensures match LastNode(nodes, key)
            case None => forall i :: 0 <= i < |nodes| ==> !NodeAnswers(nodes[i], key)
            case Some(ip) => exists i: nat :: IsLastNode(nodes, key, i) && nodes[i].meshIpv4 == ip
  {
    hide NodeAnswers, RegistryKey, WithNodes, WithTlds, LastNode;
    LastNodeIsLast(nodes, key);
    WithNodesHoldsLast(nodes, key);
    WithTldsHolds(WithNodes(map[], nodes), tlds, controllerIp, key);
  }
}
