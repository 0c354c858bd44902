/** The DNS server's queries as tasks that run side by side: each awaits two requests to the
    controller, and between those any other query may run. */
module DnsTasks {
  import opened DnsCache
  import opened Outcomes
  import opened Text

  /** A query that missed the cache and awaits the reply to its first or its second request; `listed`
      says whether the first one brought the nodes. */
  datatype Task = AwaitsNodes(key: string) | AwaitsTlds(key: string, listed: bool)

  datatype Origin = Hit | Fetched | Failed

  /** An answer, and where it came from: the cache at once, a fetch of both lists, or a fetch that failed. */
  datatype Answer = Answer(key: string, value: Option<string>, origin: Origin)

  datatype Server = Server(cache: map<string, string>, tasks: map<nat, Task>, answers: seq<Answer>)

  const START := Server(map[], map[], [])

  /** A reply without a list has another status than 200; a request may also raise. */
  datatype Event =
    | Ask(task: nat, domain: string)
    | NodesReply(task: nat, nodes: Option<seq<HostRecord>>)
    | TldsReply(task: nat, tlds: Option<seq<string>>)
    | Raise(task: nat)

  function Answered(s: Server, key: string, origin: Origin): Server {
    s.(answers := s.answers + [Answer(key, Get(s.cache, key), origin)])
  }

  function Next(s: Server, e: Event, ip: string): Server {
    match e
    case Ask(k, domain) =>
      if k in s.tasks then s
      else if CleanDomain(domain) in s.cache then Answered(s, CleanDomain(domain), Hit)
      else s.(tasks := s.tasks[k := AwaitsNodes(CleanDomain(domain))])
    case NodesReply(k, nodes) =>
      if k in s.tasks && s.tasks[k].AwaitsNodes? then
        s.(cache := if nodes.Some? then WithNodes(s.cache, nodes.value) else s.cache,
           tasks := s.tasks[k := AwaitsTlds(s.tasks[k].key, nodes.Some?)])
      else s
    case TldsReply(k, tlds) =>
      if k in s.tasks && s.tasks[k].AwaitsTlds? then
        var cache := if tlds.Some? then WithTlds(s.cache, tlds.value, ip) else s.cache;
        Answered(Server(cache, s.tasks - {k}, s.answers), s.tasks[k].key,
                 if tlds.Some? && s.tasks[k].listed then Fetched else Failed)
      else s
    case Raise(k) =>
      if k in s.tasks then Answered(s.(tasks := s.tasks - {k}), s.tasks[k].key, Failed) else s
  }

  function After(s: Server, events: seq<Event>, ip: string): Server
    decreases |events|
  {
    if events == [] then s else After(Next(s, events[0], ip), events[1..], ip)
  }

  // ----- One query after the other

  lemma {:induction false} NodesMerge(m: map<string, string>, nodes: seq<HostRecord>)
    ensures WithNodes(m, nodes) == m + WithNodes(map[], nodes)
  {
    hide Lower;
    if nodes != [] {
      var n := |nodes| - 1;
      NodesMerge(m, nodes[..n]);
      NodeStep(m, nodes, n);
      assert nodes[..n + 1] == nodes;
    }
  }

  lemma {:induction false} TldsMerge(m: map<string, string>, table: map<string, string>, tlds: seq<string>, ip: string)
    ensures WithTlds(m + table, tlds, ip) == m + WithTlds(table, tlds, ip)
  {
    hide CleanTld;
    if tlds != [] {
      var n := |tlds| - 1;
      TldsMerge(m, table, tlds[..n], ip);
      TldStep(m, table, tlds, n, ip);
      assert tlds[..n + 1] == tlds;
    }
  }

  lemma FetchMerges(m: map<string, string>, f: Fetch, ip: string)
    ensures var listed := if f.nodes.Some? then WithNodes(m, f.nodes.value) else m;
            (if f.tlds.Some? then WithTlds(listed, f.tlds.value, ip) else listed) == m + Table(f, ip)
  {
    hide WithNodes, WithTlds;
    if f.nodes.Some? {
      NodesMerge(m, f.nodes.value);
    }
    assert m + NodeTable(f) == if f.nodes.Some? then WithNodes(m, f.nodes.value) else m;
    if f.tlds.Some? {
      TldsMerge(m, NodeTable(f), f.tlds.value, ip);
    }
  }

  /** A task that runs without interruption is one query: the same cache, and the answer from it. */
  lemma SerialTaskIsAQuery(s: Server, k: nat, domain: string, f: Fetch, ip: string)
    requires k !in s.tasks
    ensures var s' := Next(Next(Next(s, Ask(k, domain), ip), NodesReply(k, f.nodes), ip), TldsReply(k, f.tlds), ip);
            && s'.cache == AfterQuery(s.cache, ip, Query(domain, f)) && s'.tasks == s.tasks
            && |s'.answers| == |s.answers| + 1
            && s'.answers[|s.answers|].value == Get(s'.cache, CleanDomain(domain))
  {
    hide WithNodes, WithTlds, Table, CleanDomain, Get;
    var key := CleanDomain(domain);
    if key !in s.cache {
      var listed := AwaitsTlds(key, f.nodes.Some?);
      var s2 := Next(Next(s, Ask(k, domain), ip), NodesReply(k, f.nodes), ip);
      assert s2.tasks == s.tasks[k := listed];
      NoTrace(s.tasks, k, listed);
      FetchMerges(s.cache, f, ip);
    }
  }

  lemma NoTrace(tasks: map<nat, Task>, k: nat, t: Task)
    requires k !in tasks
    ensures tasks[k := t] - {k} == tasks
  {
  }

  // ----- All interleavings, against a controller that always answers the same

  /** Replies are this list of nodes and this list of TLDs, unless they fail. */
  predicate Faithful(events: seq<Event>, nodes: seq<HostRecord>, tlds: seq<string>) {
    forall e :: e in events ==>
      && (e.NodesReply? && e.nodes.Some? ==> e.nodes.value == nodes)
      && (e.TldsReply? && e.tlds.Some? ==> e.tlds.value == tlds)
  }

  function Truth(nodes: seq<HostRecord>, tlds: seq<string>, ip: string, key: string): Option<string> {
    Get(Table(Fetch(Some(nodes), Some(tlds)), ip), key)
  }

  /** The controller's address for a registry name, or the address of the last node that answers. */
  predicate Genuine(nodes: seq<HostRecord>, tlds: seq<string>, ip: string, key: string, value: string) {
    (RegistryKey(tlds, key) && value == ip) || LastNode(nodes, key) == Some(value)
  }

  predicate IsName(key: string, domain: string) {
    key == CleanDomain(domain)
  }

  ghost predicate Asked(key: string) {
    exists domain :: IsName(key, domain)
  }

  ghost predicate GenuineCache(s: Server, nodes: seq<HostRecord>, tlds: seq<string>, ip: string) {
    forall key :: key in s.cache ==> Genuine(nodes, tlds, ip, key, s.cache[key])
  }

  /** A task that has brought the nodes finds all their names in the cache, for as long as it runs. */
  ghost predicate TasksListed(s: Server, nodes: seq<HostRecord>) {
    forall k :: k in s.tasks ==>
      && Asked(s.tasks[k].key)
      && (s.tasks[k].AwaitsTlds? && s.tasks[k].listed ==>
            forall key :: LastNode(nodes, key).Some? ==> key in s.cache)
  }

  ghost predicate GoodAnswer(a: Answer, nodes: seq<HostRecord>, tlds: seq<string>, ip: string) {
    && Asked(a.key)
    && (a.origin == Fetched ==> a.value == Truth(nodes, tlds, ip, a.key))
    && (a.origin == Hit ==> a.value.Some?)
    && (a.value.Some? ==> Genuine(nodes, tlds, ip, a.key, a.value.value))
  }

  ghost predicate Sound(s: Server, nodes: seq<HostRecord>, tlds: seq<string>, ip: string) {
    && GenuineCache(s, nodes, tlds, ip) && TasksListed(s, nodes)
    && forall a :: a in s.answers ==> GoodAnswer(a, nodes, tlds, ip)
  }

  lemma {:induction false} WithNodesGives(m: map<string, string>, nodes: seq<HostRecord>, key: string)
    ensures Get(WithNodes(m, nodes), key) == if LastNode(nodes, key).Some? then LastNode(nodes, key) else Get(m, key)
  {
    hide Lower;
    if nodes != [] {
      WithNodesGives(m, nodes[..|nodes| - 1], key);
    }
  }

  lemma NodesKeepGenuine(m: map<string, string>, nodes: seq<HostRecord>, tlds: seq<string>, ip: string, key: string)
    requires key in m ==> Genuine(nodes, tlds, ip, key, m[key])
    ensures var m' := WithNodes(m, nodes);
            && (key in m' ==> Genuine(nodes, tlds, ip, key, m'[key]))
            && (key in m || LastNode(nodes, key).Some? ==> key in m')
  {
    hide WithNodes, LastNode, RegistryKey;
    WithNodesGives(m, nodes, key);
  }

  lemma TldsKeepGenuine(m: map<string, string>, nodes: seq<HostRecord>, tlds: seq<string>, ip: string, key: string)
    requires key in m ==> Genuine(nodes, tlds, ip, key, m[key])
    ensures var m' := WithTlds(m, tlds, ip);
            && (key in m' ==> Genuine(nodes, tlds, ip, key, m'[key]))
            && (key in m ==> key in m')
            && ((LastNode(nodes, key).Some? ==> key in m) ==> Get(m', key) == Truth(nodes, tlds, ip, key))
  {
    hide WithTlds, LastNode, RegistryKey, Table;
    WithTldsHolds(m, tlds, ip, key);
    TableLookup(nodes, tlds, ip, key);
  }

  lemma AskKeepsSound(s: Server, k: nat, domain: string, nodes: seq<HostRecord>, tlds: seq<string>, ip: string)
    requires Sound(s, nodes, tlds, ip)
    ensures Sound(Next(s, Ask(k, domain), ip), nodes, tlds, ip)
  {
    hide Genuine, CleanDomain, LastNode, Truth;
    assert IsName(CleanDomain(domain), domain);
  }

  lemma NodesReplyKeepsSound(s: Server, k: nat, reply: Option<seq<HostRecord>>,
                             nodes: seq<HostRecord>, tlds: seq<string>, ip: string)
    requires Sound(s, nodes, tlds, ip) && (reply.Some? ==> reply.value == nodes)
    ensures Sound(Next(s, NodesReply(k, reply), ip), nodes, tlds, ip)
  {
    hide Genuine, WithNodes, LastNode, Truth, Asked;
    if reply.Some? {
      forall key
        ensures key in WithNodes(s.cache, nodes) ==> Genuine(nodes, tlds, ip, key, WithNodes(s.cache, nodes)[key])
        ensures key in s.cache || LastNode(nodes, key).Some? ==> key in WithNodes(s.cache, nodes)
      {
        NodesKeepGenuine(s.cache, nodes, tlds, ip, key);
      }
    }
  }

  lemma TldsReplyKeepsSound(s: Server, k: nat, reply: Option<seq<string>>,
                            nodes: seq<HostRecord>, tlds: seq<string>, ip: string)
    requires Sound(s, nodes, tlds, ip) && (reply.Some? ==> reply.value == tlds)
    ensures Sound(Next(s, TldsReply(k, reply), ip), nodes, tlds, ip)
  {
    hide Genuine, WithTlds, LastNode, Truth, Asked;
    if reply.Some? {
      forall key
        ensures key in WithTlds(s.cache, tlds, ip) ==> Genuine(nodes, tlds, ip, key, WithTlds(s.cache, tlds, ip)[key])
        ensures key in s.cache ==> key in WithTlds(s.cache, tlds, ip)
        ensures (LastNode(nodes, key).Some? ==> key in s.cache) ==>
                  Get(WithTlds(s.cache, tlds, ip), key) == Truth(nodes, tlds, ip, key)
      {
        TldsKeepGenuine(s.cache, nodes, tlds, ip, key);
      }
    }
  }

  lemma RaiseKeepsSound(s: Server, k: nat, nodes: seq<HostRecord>, tlds: seq<string>, ip: string)
    requires Sound(s, nodes, tlds, ip)
    ensures Sound(Next(s, Raise(k), ip), nodes, tlds, ip)
  {
    hide Genuine, LastNode, Truth, Asked;
  }

  lemma NextKeepsSound(s: Server, e: Event, nodes: seq<HostRecord>, tlds: seq<string>, ip: string)
    requires Sound(s, nodes, tlds, ip) && Faithful([e], nodes, tlds)
    ensures Sound(Next(s, e, ip), nodes, tlds, ip)
  {
    hide Sound, Next;
    assert e in [e];
    match e
    case Ask(k, domain) => AskKeepsSound(s, k, domain, nodes, tlds, ip);
    case NodesReply(k, reply) => NodesReplyKeepsSound(s, k, reply, nodes, tlds, ip);
    case TldsReply(k, reply) => TldsReplyKeepsSound(s, k, reply, nodes, tlds, ip);
    case Raise(k) => RaiseKeepsSound(s, k, nodes, tlds, ip);
  }

  lemma {:induction false} RunKeepsSound(s: Server, events: seq<Event>,
                                         nodes: seq<HostRecord>, tlds: seq<string>, ip: string)
    requires Sound(s, nodes, tlds, ip) && Faithful(events, nodes, tlds)
    ensures Sound(After(s, events, ip), nodes, tlds, ip)
    decreases |events|
  {
    hide Sound, Next;
    if events != [] {
      assert events[0] in events;
      NextKeepsSound(s, events[0], nodes, tlds, ip);
      RunKeepsSound(Next(s, events[0], ip), events[1..], nodes, tlds, ip);
    }
  }

  /** However queries interleave and requests fail: an answer fetched by its own query is the table's.
      Any other answer is nothing, after a failed request, or the table's, or, for a registry name to
      which a node answers as well, that node's. */
  lemma AnswersRefineTable(events: seq<Event>, nodes: seq<HostRecord>, tlds: seq<string>, ip: string, a: Answer)
    requires Faithful(events, nodes, tlds) && a in After(START, events, ip).answers
    ensures a.origin == Fetched ==> a.value == Truth(nodes, tlds, ip, a.key)
    ensures || a.value == Truth(nodes, tlds, ip, a.key)
            || (a.origin == Failed && a.value == None)
            || (RegistryKey(tlds, a.key) && a.value.Some? && a.value == LastNode(nodes, a.key))
  {
    hide After, Genuine, Truth, LastNode, RegistryKey;
    RunKeepsSound(START, events, nodes, tlds, ip);
    GenuineOrTruth(a, nodes, tlds, ip);
  }

  lemma GenuineOrTruth(a: Answer, nodes: seq<HostRecord>, tlds: seq<string>, ip: string)
    requires a.value.Some? ==> Genuine(nodes, tlds, ip, a.key, a.value.value)
    ensures a.value.Some? ==>
              || a.value == Truth(nodes, tlds, ip, a.key)
              || (RegistryKey(tlds, a.key) && a.value == LastNode(nodes, a.key))
  {
    hide LastNode, RegistryKey, Table;
    TableLookup(nodes, tlds, ip, a.key);
  }

  /** Whether this event asks under a task that is free. */
  predicate IsAsked(s: Server, e: Event) {
    e.Ask? && e.task !in s.tasks
  }

  function AskedCount(s: Server, events: seq<Event>, ip: string): nat
    decreases |events|
  {
    if events == [] then 0
    else AskedCount(Next(s, events[0], ip), events[1..], ip) + if IsAsked(s, events[0]) then 1 else 0
  }

  lemma OneTaskLess(tasks: map<nat, Task>, k: nat)
    requires k in tasks
    ensures |tasks - {k}| == |tasks| - 1
  {
    assert tasks.Keys == (tasks - {k}).Keys + {k};
    assert |tasks| == |tasks.Keys| && |tasks - {k}| == |(tasks - {k}).Keys|;
  }

  lemma OneTaskMore(tasks: map<nat, Task>, k: nat, t: Task)
    ensures |tasks[k := t]| == |tasks| + if k in tasks then 0 else 1
  {
    assert tasks[k := t].Keys == tasks.Keys + {k};
    assert |tasks| == |tasks.Keys| && |tasks[k := t]| == |tasks[k := t].Keys|;
  }

  lemma AskConserves(s: Server, k: nat, domain: string, ip: string)
    ensures var s' := Next(s, Ask(k, domain), ip);
            |s'.answers| + |s'.tasks| == |s.answers| + |s.tasks| + if k in s.tasks then 0 else 1
  {
    hide CleanDomain, Get;
    OneTaskMore(s.tasks, k, AwaitsNodes(CleanDomain(domain)));
  }

  lemma NodesReplyConserves(s: Server, k: nat, nodes: Option<seq<HostRecord>>, ip: string)
    ensures var s' := Next(s, NodesReply(k, nodes), ip);
            |s'.answers| + |s'.tasks| == |s.answers| + |s.tasks|
  {
    hide WithNodes;
    if k in s.tasks {
      OneTaskMore(s.tasks, k, AwaitsTlds(s.tasks[k].key, nodes.Some?));
    }
  }

  lemma TldsReplyConserves(s: Server, k: nat, tlds: Option<seq<string>>, ip: string)
    ensures var s' := Next(s, TldsReply(k, tlds), ip);
            |s'.answers| + |s'.tasks| == |s.answers| + |s.tasks|
  {
    hide WithTlds, Get;
    if k in s.tasks {
      OneTaskLess(s.tasks, k);
    }
  }

  lemma RaiseConserves(s: Server, k: nat, ip: string)
    ensures var s' := Next(s, Raise(k), ip);
            |s'.answers| + |s'.tasks| == |s.answers| + |s.tasks|
  {
    hide Get;
    if k in s.tasks {
      OneTaskLess(s.tasks, k);
    }
  }

  lemma NextConserves(s: Server, e: Event, ip: string)
    ensures |Next(s, e, ip).answers| + |Next(s, e, ip).tasks| ==
            |s.answers| + |s.tasks| + if IsAsked(s, e) then 1 else 0
  {
    hide Next;
    match e
    case Ask(k, domain) => AskConserves(s, k, domain, ip);
    case NodesReply(k, nodes) => NodesReplyConserves(s, k, nodes, ip);
    case TldsReply(k, tlds) => TldsReplyConserves(s, k, tlds, ip);
    case Raise(k) => RaiseConserves(s, k, ip);
  }

  /** Every query is answered once, or is still under way: none is lost and none answered twice. */
  lemma {:induction false} EveryQueryIsAnsweredOnce(s: Server, events: seq<Event>, ip: string)
    ensures |After(s, events, ip).answers| + |After(s, events, ip).tasks| ==
            |s.answers| + |s.tasks| + AskedCount(s, events, ip)
    decreases |events|
  {
    hide Next, IsAsked;
    if events != [] {
      NextConserves(s, events[0], ip);
      EveryQueryIsAnsweredOnce(Next(s, events[0], ip), events[1..], ip);
    }
  }

  // ----- Exactly when every answer is the table's

  predicate NothingFails(events: seq<Event>) {
    forall e :: e in events ==>
      !e.Raise? && (e.NodesReply? ==> e.nodes.Some?) && (e.TldsReply? ==> e.tlds.Some?)
  }

  /** No name that can be asked for is both a registry name and that of a node elsewhere. */
  ghost predicate NoClash(nodes: seq<HostRecord>, tlds: seq<string>, ip: string) {
    forall domain ::
      RegistryKey(tlds, CleanDomain(domain)) ==> LastNode(nodes, CleanDomain(domain)) in [None, Some(ip)]
  }

  ghost predicate AlwaysTrue(nodes: seq<HostRecord>, tlds: seq<string>, ip: string) {
    forall events, a | Faithful(events, nodes, tlds) && NothingFails(events) && a in After(START, events, ip).answers ::
      a.value == Truth(nodes, tlds, ip, a.key)
  }

  /** Without failures no answer fails, and all tasks have brought the nodes. */
  ghost predicate NoneFailed(s: Server) {
    && (forall a :: a in s.answers ==> a.origin != Failed)
    && (forall k :: k in s.tasks && s.tasks[k].AwaitsTlds? ==> s.tasks[k].listed)
  }

  lemma {:induction false} NothingFailsNoneFailed(s: Server, events: seq<Event>, ip: string)
    requires NoneFailed(s) && NothingFails(events)
    ensures NoneFailed(After(s, events, ip))
    decreases |events|
  {
    hide CleanDomain, WithNodes, WithTlds, Get;
    if events != [] {
      assert events[0] in events;
      NothingFailsNoneFailed(Next(s, events[0], ip), events[1..], ip);
    }
  }

  lemma ClashRun(nodes: seq<HostRecord>, tlds: seq<string>, ip: string, domain: string) returns (events: seq<Event>)
    requires LastNode(nodes, CleanDomain(domain)).Some?
    ensures Faithful(events, nodes, tlds) && NothingFails(events)
    ensures Answer(CleanDomain(domain), LastNode(nodes, CleanDomain(domain)), Hit) in After(START, events, ip).answers
  {
    hide CleanDomain, WithNodes, LastNode, RegistryKey;
    events := [Ask(0, domain), NodesReply(0, Some(nodes)), Ask(1, domain)];
    var key := CleanDomain(domain);
    WithNodesGives(map[], nodes, key);
    var s1 := Next(START, events[0], ip);
    var s2 := Next(s1, events[1], ip);
    var s3 := Next(s2, events[2], ip);
    assert s2.cache == WithNodes(map[], nodes) && 1 !in s2.tasks && key in s2.cache;
    AfterThree(START, events, ip);
    assert s3.answers == [] + [Answer(key, Get(s2.cache, key), Hit)];
  }

  lemma AfterThree(s: Server, events: seq<Event>, ip: string)
    requires |events| == 3
    ensures After(s, events, ip) == Next(Next(Next(s, events[0], ip), events[1], ip), events[2], ip)
  {
    hide Next;
    var s1 := Next(s, events[0], ip);
    assert After(s, events, ip) == After(s1, events[1..], ip);
    var s2 := Next(s1, events[1], ip);
    assert events[1..][1..] == events[2..];
    assert After(s1, events[1..], ip) == After(s2, events[2..], ip);
    assert events[2..][1..] == [];
    assert After(s2, events[2..], ip) == After(Next(s2, events[2], ip), [], ip);
  }

  /** Every answer of every interleaving without failures is the table's, exactly when no name is both
      a registry name and that of a node at another address. */
  lemma AlwaysTrueIff(nodes: seq<HostRecord>, tlds: seq<string>, ip: string)
    ensures AlwaysTrue(nodes, tlds, ip) <==> NoClash(nodes, tlds, ip)
  {
    if AlwaysTrue(nodes, tlds, ip) {
      forall domain | RegistryKey(tlds, CleanDomain(domain))
        ensures LastNode(nodes, CleanDomain(domain)) in [None, Some(ip)]
      {
        TrueRunsDoNotClash(nodes, tlds, ip, domain);
      }
    }
    if NoClash(nodes, tlds, ip) {
      forall events, a | Faithful(events, nodes, tlds) && NothingFails(events) && a in After(START, events, ip).answers
        ensures a.value == Truth(nodes, tlds, ip, a.key)
      {
        WithoutClashTrue(nodes, tlds, ip, events, a);
      }
    }
  }

  lemma TrueRunsDoNotClash(nodes: seq<HostRecord>, tlds: seq<string>, ip: string, domain: string)
    requires AlwaysTrue(nodes, tlds, ip) && RegistryKey(tlds, CleanDomain(domain))
    ensures LastNode(nodes, CleanDomain(domain)) in [None, Some(ip)]
  {
    hide After, CleanDomain, LastNode, RegistryKey, Table, Faithful, NothingFails;
    if LastNode(nodes, CleanDomain(domain)).Some? {
      var events := ClashRun(nodes, tlds, ip, domain);
      TableLookup(nodes, tlds, ip, CleanDomain(domain));
    }
  }

  lemma WithoutClashTrue(nodes: seq<HostRecord>, tlds: seq<string>, ip: string, events: seq<Event>, a: Answer)
    requires NoClash(nodes, tlds, ip)
    requires Faithful(events, nodes, tlds) && NothingFails(events) && a in After(START, events, ip).answers
    ensures a.value == Truth(nodes, tlds, ip, a.key)
  {
    hide After, CleanDomain, LastNode, RegistryKey, Table, Faithful, NothingFails, Genuine;
    RunKeepsSound(START, events, nodes, tlds, ip);
    NothingFailsNoneFailed(START, events, ip);
    AnswersRefineTable(events, nodes, tlds, ip, a);
    TableLookup(nodes, tlds, ip, a.key);
    var domain :| IsName(a.key, domain);
  }

  lemma CleanKeeps(name: string)
    requires NoUpper(name) && name != "" && name[0] != '.' && name[|name| - 1] != '.'
    ensures CleanDomain(name) == name
  {
    hide Lower, LStrip, RStripChar;
    LowerKeeps(name);
    StripsKeep(name);
  }

  lemma LowerKeeps(name: string)
    requires NoUpper(name)
    ensures Lower(name) == name
  {
  }

  lemma StripsKeep(name: string)
    requires name != "" && name[0] != '.' && name[|name| - 1] != '.'
    ensures LStrip(name, '.') == name && RStripChar(name, '.') == name
  {
  }

  lemma OnlyNode(n: HostRecord)
    ensures LastNode([n], Lower(n.hostname)) == Some(n.meshIpv4)
  {
  }

  /** A node called "registry": while one query for that name awaits the TLDs, another one is answered
      with the node's address instead of the controller's. */
  lemma RegistryNodeExample(ip: string, at: string)
    returns (nodes: seq<HostRecord>, tlds: seq<string>, events: seq<Event>)
    requires at != ip
    ensures nodes == [HostRecord("registry", at)] && tlds == ["mesh"]
    ensures Faithful(events, nodes, tlds) && NothingFails(events)
    ensures Answer("registry", Some(at), Hit) in After(START, events, ip).answers
    ensures Truth(nodes, tlds, ip, "registry") == Some(ip)
  {
    hide After, Table, Faithful, NothingFails, CleanDomain, LastNode, Lower;
    nodes, tlds := [HostRecord("registry", at)], ["mesh"];
    CleanKeeps("registry");
    assert Lower("registry") == "registry";
    OnlyNode(HostRecord("registry", at));
    assert RegistryKey(tlds, "registry");
    events := ClashRun(nodes, tlds, ip, "registry");
    TableLookup(nodes, tlds, ip, "registry");
  }
}
