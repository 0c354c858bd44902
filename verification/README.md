# PyMesh control plane and wire formats in Dafny

A model of the parts of PyMesh whose behaviour is hardest to see from any one function, with proofs
about all inputs, all runs and all interleavings.

- **Address pool and controller** (`Networks`, `Allocator`, `Storage`, `Nodes`, `Api`,
  `Interleaving`, `Peers`). Addresses are integers, prefixes are aligned blocks. The tables are fields
  of a `Database` object. Its commits are the assumption about the database: they take effect
  unless a primary key or one of the two UNIQUE address columns is violated, and then change nothing;
  updates of several rows are checked one after the other, in an order that is a parameter. The first-fit scan is proved equal to "least free usable
  address", repeated scans to one div/mod formula, and the invariant of the tables is proved over
  serial runs and over interleaved registrations.
- **Hosts file** (`Text`, `Sections`, `Hosts`, `HostsBlock`). The delimited section is found and
  replaced by a scanning loop that is proved to be the leftmost, shortest regular-expression match.
- **Wire formats** (`Bytes`, `DnsMessages`, `MagicDns`, `Stun`, `Relay`). Bytes are integers below
  256, exclusive or is defined digit by digit.
- **Tables and policies against a simpler form** (`DnsCache`, `DnsTasks`, the shared record table in `MagicDns`,
  `Acl`, `Firewall`).

Where the source changes state the model is a class or a loop, proved against a specification function
on values; the laws are lemmas about those functions. Python's `int`s, strings and byte strings are
Dafny's unbounded integers, `seq<char>` and `seq<byte>`; the 2^32, 2^128 and 2^16 limits of addresses,
ports and lengths are explicit.

What comes from outside is a parameter: the hash that derives a node id, the controller's answers to
the DNS server, the host parsed out of a URL, the sender of a datagram, how the regular-expression
library compiles a replacement template, which of two rows a commit updates first, whether a file is
writable and whether `iptables` exists.

Results that a reader of the source might not expect, the failures among them with their exact condition
and a concrete input:

- A hosts file with a start marker but no end marker loses everything after that marker on the second
  sync (`Hosts.LastWriteWinsIff`, `Hosts.StaleStartResync`, `Hosts.StaleStartExample`); a file whose end
  markers all stand before its start markers is never updated at all (`Hosts.SyncInstallsIff`,
  `Hosts.MisplacedEndExample`).
- A subnet change with the empty text as IPv6 prefix keeps the stored IPv6 prefix but allocates from the
  default one (`Api.SubnetChangeKeepsConsistentIff`, `Api.RunConsistentIff`, `Api.EmptyArgumentExample`).
- A subnet change while a registration is under way can leave the new node outside its network
  (`Interleaving.InterleavingConsistentIff`, `Interleaving.StaleInsertExample`).
- Whether a subnet change that assigns addresses already in use within the network goes through depends
  on the order in which one commit updates the rows (`Api.SubnetChangeSucceedsIff`, `Api.OrderDecidesIff`,
  `Api.OrderDecidesExample`).
- A registration in one network can be refused because of a row in another one, since addresses are
  unique over the whole table but allocation looks at one network (`Nodes.RegisterConflictIff`); with the
  default prefixes a second network cannot even get its first node (`Nodes.SecondNetworkIsRefused`).
- The compiled packet-filter chain ignores node selectors and protocols and reads the action regardless
  of case, while the policy engine does not (`Firewall.RuleEnforcedIff`, `Firewall.GroupRuleExample`,
  `Firewall.ChainEnforcesErasedRules`); and when no rule matches the policy denies but the chain is silent
  (`Firewall.EnforceableRulesEnforced`).
- The relay's frames keep the first 32 characters of an id, and node ids have 64: a frame arrives at
  whoever announced the same first half last (`Relay.IdsSurviveIff`, `Relay.MisdeliveredIff`,
  `Relay.SharedHalfExample`).
- While one query awaits the TLDs, another can be told a node's address for a registry name
  (`DnsTasks.AlwaysTrueIff`, `DnsTasks.RegistryNodeExample`).
- The allocator's comment reserves the network address and the controller's `.1`. The code skips every
  address whose last octet is 1, one in each 256, and in a block that does not start on a multiple of
  256 it reserves no controller address (`Allocator.ControllerReservedIff`,
  `Allocator.UnreservedExample`); addresses ending in `.0` inside the block are handed out.
- The Magic DNS class comment names A and AAAA queries; the code answers every question type with an A
  record (`MagicDns.MagicAnswersRecord` holds for any type and class bytes).

## Model

| member | source | states |
|---|---|---|
| `Networks.Masked` | pymesh/controller/allocator.py:17-18 | a prefix written with host bits denotes the aligned block that contains the written address and fits the address space (`strict=False`) |
| `Allocator.IPAllocator.Allocate` | pymesh/controller/allocator.py:20-40 | for every taken set the address handed out is usable, not taken and below every other such address, with the IPv6 address of the same offset; exhaustion iff every usable address is taken |
| `Allocator.FirstFree` | pymesh/controller/allocator.py:24-30 | an address is found iff some usable one is free, and it is the least such |
| `Allocator.AllocationIsLeastFree` | pymesh/controller/allocator.py:24-40 | the same of the specification, for every taken set, with holes or not; overflow iff the least usable free address has an IPv6 sum that reaches 2^128 |
| `Allocator.ExhaustedIff` | pymesh/controller/allocator.py:32-33 | exhaustion iff every usable address is taken, for any taken set |
| `Allocator.ExhaustedIffFull` | pymesh/controller/allocator.py:22-33 | when only usable addresses are taken, at most `Capacity` are, and exhaustion iff exactly `Capacity` are |
| `Allocator.CapacityCountsUsable` | pymesh/controller/allocator.py:24-27 | the number of usable addresses is exactly 2^(32-p) - 2^(24-p) - 2 for p <= 24, and the separate counts for p = 25..30, 31 and 32 |
| `Allocator.NthIsUsable` | pymesh/controller/allocator.py:24-27 | the div/mod formula `Offset` yields a usable address for every rank below the capacity |
| `Allocator.UsableHasRank` | pymesh/controller/allocator.py:24-27 | every usable address has a rank below the capacity, so the formula enumerates the pool exactly |
| `Allocator.NthAllocation` | pymesh/controller/api.py:266-274 | after the k lowest addresses are handed out, a further scan returns the closed form of rank k, or fails iff k reaches the capacity or the IPv6 sum reaches 2^128 |
| `Allocator.DerivedInsidePrefix` | pymesh/controller/allocator.py:35-38 | the derived IPv6 address lies inside the IPv6 prefix when 32 - p4 <= 128 - p6 |
| `Allocator.ControllerReservedIff` | pymesh/controller/allocator.py:22-27 | in a block of at least two addresses the first one behind the network address is kept back iff the block starts on a multiple of 256, and then so is every other address ending in `.1` |
| `Allocator.UnreservedExample` | pymesh/controller/allocator.py:22-27 | 10.0.0.128/25 is a block whose first host is handed out |
| `Storage.Position` | pymesh/controller/nodes.py:49-51 | lookup by primary key finds a row with that id, or there is none |
| `Storage.DefaultPrefixes` | pymesh/storage/models.py:21-22 | the column defaults are 100.64.0.0/10 and fd00:7079:6d65::/48 |
| `Nodes.NodeManager.GetOrCreateNetwork` | pymesh/controller/nodes.py:18-28 | a missing network is created with the default prefixes, an existing one is left alone |
| `Nodes.NodeManager.RegisterNode` | pymesh/controller/nodes.py:31-89 | the method's new tables and result are those of `Registered`: refresh an existing row, or allocate and commit a new one |
| `Nodes.RegisterTouchesOneRow` | pymesh/controller/nodes.py:54-89 | after success one row stands under the id, it holds the whole request, and all rows under other ids are unchanged |
| `Nodes.RegisterAppendsLeastFree` | pymesh/controller/nodes.py:68-89 | a new node is appended behind all rows with the whole request, in the named network, at the least usable address that no row of the network holds |
| `Nodes.RegisterRefreshesInPlace` | pymesh/controller/nodes.py:54-66 | a registration under a known id keeps the row's place, network, addresses and identity key, takes over the whole request and touches no other row |
| `Nodes.RegisterKeepsTheRest` | pymesh/controller/nodes.py:31-89 | a registration changes no route and no existing network, creates the named network with the defaults if it is missing, and changes no node when it fails |
| `Nodes.RegisterKeepsConsistent` | pymesh/controller/nodes.py:31-89 | registration keeps addresses distinct, usable in their network's prefix, and coupled |
| `Nodes.RegisterExhaustedIff` | pymesh/controller/nodes.py:38-68 | a new node is refused for exhaustion iff its network already has exactly `Capacity` members |
| `Nodes.RegisterConflictIff` | pymesh/controller/nodes.py:68-87 | the uniqueness constraints refuse a new node iff a row of another network holds the allocated IPv4 or IPv6 address |
| `Nodes.SecondNetworkIsRefused` | pymesh/controller/nodes.py:31-87 | in a fresh database, after the first node of any network, the first node of any other network fails with the uniqueness constraint |
| `Api.Endpoints.Renumber` | pymesh/controller/api.py:263-274 | the renumbering loop gives the i-th node of the network the closed form of rank i and leaves other rows alone, or fails with the error of the first node that cannot be served |
| `Api.Endpoints.UpdateNetworkSubnet` | pymesh/controller/api.py:246-282 | the endpoint's new tables and result are those of `SubnetChanged` |
| `Api.FailedChangeKeepsTables` | pymesh/controller/api.py:255-276 | a change that fails anywhere leaves every node, route and existing network row as it was, and creates the missing network row iff its arguments were well formed |
| `Api.SuccessfulChangeRenumbersAll` | pymesh/controller/api.py:258-282 | a change that goes through renumbers every node of the network by rank, keeps ids, order and count, stores the IPv4 prefix, leaves other networks alone and reports the count |
| `Storage.UpdatesPassIff` | pymesh/storage/models.py:34-35 | checked update by update, new rows pass iff they are unique and none takes an address of a row that is updated only later |
| `Api.SubnetChangeSucceedsIff` | pymesh/controller/api.py:263-276 | a well-formed change goes through iff the node count is within the capacity, the last derived IPv6 address is below 2^128, no other network's row collides, and no row is updated to an address that a row of the network gives up only later |
| `Api.ChangeErrorIff` | pymesh/controller/api.py:255-276 | which error a change ends with: malformed arguments, the first failing allocation in row order (overflow or exhaustion), or a collision, each with its exact condition |
| `Api.OrderDecidesIff` | pymesh/controller/api.py:263-276 | after the first of three nodes is deleted, giving the network its own prefixes again goes through iff the lower of the two addresses left is updated first |
| `Api.OrderDecidesExample` | pymesh/controller/api.py:263-276 | the same for the nodes `a` and `b` at the default prefixes, in consistent tables |
| `Api.RenumberedUniqueIff` | pymesh/storage/models.py:34-35 | the renumbered table satisfies the uniqueness columns iff no new address is held by another network's row |
| `Api.SubnetChangeKeepsConsistentIff` | pymesh/controller/api.py:258-264 | a successful change keeps the coupling iff the IPv6 prefix was not the empty text, or no node was renumbered, or the stored IPv6 prefix starts where the default one does |
| `Api.EmptyArgumentExample` | pymesh/controller/api.py:260-264 | a concrete subnet change whose IPv6 prefix is the empty text, after which the coupling is lost |
| `Api.Endpoints.DeleteNode` | pymesh/controller/api.py:113-120 | takes out the one row of the id and leaves all others in their order, or nothing and not-found iff there was none; routes and networks stay |
| `Api.Without` | pymesh/controller/api.py:115-119 | exactly the rows under other ids remain, and the count changes iff the id was present |
| `Api.DeleteKeepsConsistent` | pymesh/controller/api.py:113-120 | deletion keeps the invariant |
| `Api.Endpoints.AddRoute` | pymesh/controller/api.py:215-228 | goes through iff no route has the id; then the routes are the old ones, in order, and the new row with the default network's id; otherwise all tables are as before; route ids stay distinct and no node or network changes |
| `Api.Endpoints.DeleteRoute` | pymesh/controller/api.py:238-243 | afterwards the routes are exactly the old ones under other ids, still with distinct ids, and no node or network has changed |
| `Api.RoutesWithout` | pymesh/controller/api.py:240-241 | exactly the routes under other ids remain |
| `Api.RoutesWithoutCutsOne` | pymesh/controller/api.py:240-241 | taking out one route leaves all others in their order |
| `Api.DeleteUndoesAdd` | pymesh/controller/api.py:215-243 | deleting a route just added restores the tables, order included; adding under a taken id changes nothing |
| `Api.RunKeepsRoutes` | pymesh/controller/api.py:215-243 | over any run of requests route ids stay distinct, and the row under an id is an independent register: set by a post while empty, cleared by its removal, untouched by everything else |
| `Api.RunConsistentIff` | pymesh/controller/api.py:246-282 | a serial run of requests never leaves the invariant iff every successful subnet change in it has an IPv6 prefix, or renumbers nothing, or finds the stored IPv6 prefix starting where the default one does |
| `Api.RunKeepsConsistent` | pymesh/controller/api.py:246-282 | after any serial run of registrations, deletions, route changes and subnet changes (none of these with the empty text as IPv6 prefix), addresses are distinct, usable in the current prefix, and coupled |
| `Api.RunStaysInsidePrefixes` | pymesh/controller/api.py:246-282 | after such a run every IPv6 address lies inside the current IPv6 prefix of its network, where 32 - p4 <= 128 - p6 |
| `Interleaving.InterleavingKeepsSound` | pymesh/controller/nodes.py:36-89 | however the awaits of registrations interleave with each other, with deletions and with subnet changes that find no registration of their network under way, committed addresses stay distinct, in the pool, and coupled |
| `Interleaving.InterleavingConsistentIff` | pymesh/controller/nodes.py:36-87 | for every interleaving, the invariant is never left iff each row that goes in has an IPv4 address usable in its network's prefix of that moment, the network's prefixes are then as far apart as the registration has read them, and each subnet change keeps the coupling |
| `Interleaving.StaleInsertExample` | pymesh/controller/nodes.py:36-87 | a concrete run in which a subnet change between a registration's reads and its commit leaves the node outside its network |
| `Interleaving.V6RefusesOnlyWithV4` | pymesh/storage/models.py:34-35 | at every reachable moment a pending row clashes with a row of its network on IPv6 iff on IPv4, and where all networks have the same difference between their prefixes, with any row of the table |
| `Interleaving.V6NeverDecides` | pymesh/storage/models.py:34-35 | from an empty database and without subnet changes, in any number of networks, the IPv6 constraint refuses a pending row iff the IPv4 constraint does |
| `Interleaving.RacingInsertIsRefused` | pymesh/controller/nodes.py:38-87 | of two registrations that read the same taken addresses, once one has committed a row the other's commit changes nothing or only refreshes a row, whatever runs in between, short of deleting the winner's row or renumbering its network |
| `Interleaving.SerialFlightIsRegistration` | pymesh/controller/nodes.py:31-89 | the four steps of a flight, uninterrupted, have exactly the effect of one registration |
| `Peers.PeerManager.BuildNetworkConfig` | pymesh/controller/peers.py:15-83 | the built config is `ConfigFor` the node, or nothing for an unknown id |
| `Peers.PeerManager.GroupRoutes` | pymesh/controller/peers.py:42-44 | the route map holds, per node, the prefixes routed through it in route order |
| `Peers.PeerManager.ConfigurePeers` | pymesh/controller/peers.py:46-64 | each peer gets its two host entries followed by its routed prefixes, peers in table order |
| `Peers.PeersAreTheOtherNodes` | pymesh/controller/peers.py:26-32 | the peers are exactly the other nodes of the same network |
| `Peers.PeersInTableOrder` | pymesh/controller/peers.py:26-64 | the peers are, in table order, exactly the other rows of the network, each with the row's own id, host name, WireGuard key, addresses and endpoints, its two host entries first |
| `Peers.RoutedPrefixesExactly` | pymesh/controller/peers.py:34-51 | behind its host entries a peer has, in table order, exactly the prefixes of the enabled routes of the network through it |
| `Peers.RoutesListedExactly` | pymesh/controller/peers.py:34-83 | the config names the node and lists, in table order, exactly the enabled routes of its network |
| `Peers.PeerCount` | pymesh/controller/peers.py:26-47 | a node of an n-node network gets n - 1 peers with distinct ids |
| `Peers.HostEntriesAreDisjoint` | pymesh/controller/peers.py:48 | no generated /32 or /128 entry appears at two peers |
| `Peers.AllowedIpsConserved` | pymesh/controller/peers.py:34-51 | the allowed-ips entries total two per peer plus one per enabled route of the network through a peer |
| `Sections.SearchIsLeftmostShortest` | pymesh/networking/hosts.py:78-79 | the search returns the leftmost match of START .*? END with an optional newline, ended by the first end marker, and nothing iff there is no match |
| `Sections.Substitute` | pymesh/networking/hosts.py:78-79 | the substitution loop puts the template's expansion in place of every match and keeps the text between matches |
| `Sections.IdentityReplacement` | pymesh/networking/hosts.py:78-79 | a template that gives every match back leaves the text as it is, so matches and gaps make up the text |
| `Sections.GapsOfJoin` | pymesh/networking/hosts.py:78-79 | scanning a text made of pieces and generated blocks finds exactly those pieces again |
| `Sections.GapsOfWoven` | pymesh/networking/hosts.py:78-79 | the same where every section holds a block of its own |
| `Hosts.HostsFile.Sync` | pymesh/networking/hosts.py:74-92 | replace the sections by the block read as a replacement template, or append the block to the right-stripped text; a missing or unwritable file, or a template that does not compile, is reported and leaves the file alone |
| `Hosts.PlainBlockIsSynced` | pymesh/networking/hosts.py:76-82 | a block without a backslash, or put into a file that lacks a marker, goes in literally: `Synced` |
| `Hosts.HostsFile.Remove` | pymesh/networking/hosts.py:95-108 | deletes the sections when both markers are present, otherwise leaves the text |
| `Hosts.LastWriteWinsIff` | pymesh/networking/hosts.py:74-84 | a second sync leaves exactly what it alone would have left, iff the file does not hold a start marker without an end marker (any text otherwise: several sections, stray or misplaced markers) |
| `Hosts.StaleStartResync` | pymesh/networking/hosts.py:76-82 | with a start marker and no end marker, the second sync deletes everything from that marker on |
| `Hosts.StaleStartExample` | pymesh/networking/hosts.py:76-82 | a concrete two-line file of which the second sync leaves nothing but the block |
| `Hosts.SyncRun` | pymesh/networking/hosts.py:22-86 | after any non-empty run of syncs the text is the one the last sync alone produces |
| `Hosts.SurroundingsKept` | pymesh/networking/hosts.py:76-82 | the pieces of text around the sections are the same after a sync as before |
| `Hosts.PiecesAreKept` | pymesh/networking/hosts.py:76-103 | on a text of pieces with sections between them a sync puts its block in the place of each and a shutdown puts nothing there; every piece stays, the last one included |
| `Hosts.TextAroundIsKept` | pymesh/networking/hosts.py:76-103 | for one section between two texts: a sync leaves both around the new block, a shutdown leaves the two |
| `Hosts.RemovedUnchangedIff` | pymesh/networking/hosts.py:95-108 | a shutdown leaves a text alone iff no start marker in it is followed by an end marker |
| `Hosts.SyncInstallsIff` | pymesh/networking/hosts.py:76-79 | the synced text contains the block, iff not (both markers present but no start marker followed by an end marker); in that case nothing changes |
| `Hosts.MisplacedEndIsStuck` | pymesh/networking/hosts.py:76-79 | a file with an end marker, ended by its only start marker, is left as it is by every sync |
| `Hosts.MisplacedEndExample` | pymesh/networking/hosts.py:76-79 | a concrete file that no sync changes |
| `Hosts.DaemonRunNeverGrows` | pymesh/networking/hosts.py:74-106 | on a text without a start marker, any run of syncs, shutdowns and restarts ends in the stripped text, two newlines and at most the last block |
| `Hosts.SectionsGoAtFirstShutdown` | pymesh/networking/hosts.py:74-106 | on a text that holds both markers, a run up to the first shutdown leaves what the shutdown alone would have left; the rest of the run then settles as above, when no start marker remains |
| `Hosts.ShutdownNeverGrows` | pymesh/networking/hosts.py:74-106 | whatever text the file held, a run of syncs, shutdowns and restarts that ends in a shutdown leaves at most two characters more |
| `HostsBlock.HostsManager.GroupByIp` | pymesh/networking/hosts.py:35-44 | grouping by address keeps addresses in order of first appearance and each list in record order |
| `HostsBlock.HostsManager.GenerateBlock` | pymesh/networking/hosts.py:29-72 | the generated text is `BlockFor` the records, TLDs and controller |
| `HostsBlock.HostsManager.SyncHostsFile` | pymesh/networking/hosts.py:22-92 | the file's new text is its old text with the generated block written into it, or it is left alone and false is returned |
| `HostsBlock.BlockHoldsExactly` | pymesh/networking/hosts.py:29-72 | the whole generated text: between the markers one line for each recorded address and the controller's, with a tab and strictly sorted names, which are exactly the lower-case hosts, their per-TLD forms, and on the controller's line the registry names |
| `HostsBlock.LinesByAppearance` | pymesh/networking/hosts.py:35-66 | lines stand in the order in which records name their addresses, the controller's last if no record names it |
| `HostsBlock.OrderHoldsExactly` | pymesh/networking/hosts.py:36-66 | the addresses with a line are exactly the recorded ones and the controller's |
| `Text.SortedIsUnique` | pymesh/networking/hosts.py:67 | a strictly sorted duplicate-free list is determined by its set of names |
| `Text.FirstDifferenceDecides` | pymesh/networking/hosts.py:67 | sorting is by the first differing character, a prefix coming first |
| `HostsBlock.GeneratedBlockIsBlock` | pymesh/networking/hosts.py:33-72 | whatever the host names and TLDs, the generated text is one section with its markers at its ends only, provided no address text contains a marker |
| `HostsBlock.SyncHostsLastWriteWins` | pymesh/networking/hosts.py:22-86 | last write wins for two syncs, each with its own records, TLDs and controller host (no backslash in any, no marker in an address text), iff the file held no stale start marker |
| `DnsMessages.ParseDomainName` | pymesh/dns/server.py:22-39 | the parsing loop returns the dotted name of the labels read, without an upper-case letter, and the end offset |
| `DnsMessages.NameOfOneLabel` | pymesh/dns/server.py:38 | the name of one label is that label, character by character in lower case |
| `DnsMessages.NameOfLabels` | pymesh/dns/server.py:38 | the name of more labels is the names of two parts of them with a dot in between |
| `DnsMessages.PointerEndsName` | pymesh/dns/server.py:30-36 | a name that ends in a compression pointer is read up to it and ends behind its two bytes |
| `DnsMessages.LengthsBelowPointers` | pymesh/dns/server.py:26-36 | every byte from 1 to 191 is the length of a label |
| `DnsMessages.EndIsBounded` | pymesh/dns/server.py:26-39 | on any bytes the cursor advances and ends at most 191 past the buffer |
| `DnsMessages.ReadNameIsLocal` | pymesh/dns/server.py:26-36 | a name that ends inside the buffer depends only on the bytes from its start to its end |
| `DnsMessages.NameRoundTrip` | pymesh/dns/server.py:22-39 | parsing the encoding of any ASCII labels of length 1 to 63, anywhere in a buffer, gives those labels and the offset past the root byte (sections 3.1 and 4.1.2 of RFC 1035) |
| `DnsMessages.ResponseIsConsistent` | pymesh/dns/server.py:42-65 | for a complete question the response parses to the same name and end, repeats type and class, counts one answer, and the answer's pointer designates that name and carries type A, class IN, 30 seconds and the address |
| `DnsMessages.ResponseLayout` | pymesh/dns/server.py:42-65 | for every query, cut off or not, the response repeats id, question count and question and carries the answer; without a whole header it is empty |
| `MagicDns.MagicDNSProtocol.BuildDnsResponse` | pymesh/networking/dns.py:30-76 | the second responder's loop and branches compute `MagicResponse` from the shared table as it is at the call |
| `MagicDns.ParsersAgreeIff` | pymesh/networking/dns.py:47-53 | the two name parsers stop at the same offset iff no compression pointer is met, and then read the same labels |
| `MagicDns.RespondersAgree` | pymesh/networking/dns.py:44-76 | on a complete pointer-free question for a name in the table the two responses differ in the low byte of the time to live only |
| `MagicDns.AnyByteIsALength` | pymesh/networking/dns.py:47-53 | the second parser takes any byte from 1 to 255 for the length of a label |
| `MagicDns.AnsweredOrRefused` | pymesh/networking/dns.py:30-76 | for every query: answered with the address of the full lower-case name, else of the first label as written, else refused with code 3 and no answer; the question is repeated either way |
| `MagicDns.MagicDNSServer.UpdateRecords` | pymesh/networking/dns.py:88-102 | the table object is cleared and refilled in place to `TableFor` the new records |
| `MagicDns.AnswerAfterUpdate` | pymesh/networking/dns.py:15-102 | a protocol object made before an update answers from the table after it, because both hold the same object |
| `MagicDns.AppliedHoldsLastWrite` | pymesh/networking/dns.py:92-102 | the table holds exactly the last write to each key |
| `MagicDns.TableHoldsLastRecord` | pymesh/networking/dns.py:88-102 | the table holds a key iff some record answers to it, by its name, its name under a TLD, or as the controller's to a registry name, with the address of the last record that does |
| `MagicDns.MagicAnswersRecord` | pymesh/networking/dns.py:44-102 | end to end: a query whose labels spell a record's name in any mix of cases, of any type and class, gets one A record with that record's address |
| `MagicDns.MagicAnswersRecordUnder` | pymesh/networking/dns.py:44-102 | the same for the record's name under one of the TLDs |
| `DnsCache.PyMeshDNSServer.ResolveCustomTld` | pymesh/dns/server.py:119-159 | a hit returns the cached value and changes nothing; a miss merges the fetched table over the cache and looks the name up |
| `DnsCache.CacheRefinesTable` | pymesh/dns/server.py:119-159 | against an unchanging controller every answer of every run is a lookup in the table built from scratch |
| `DnsCache.CacheHoldsLastFetched` | pymesh/dns/server.py:132-155 | while the controller changes, the cache holds a key iff some fetch wrote it, with the value of the last fetch that did |
| `DnsCache.NoLaterWriter` | pymesh/dns/server.py:132-155 | `LastWriter` is at or after every query whose fetch wrote the key |
| `DnsCache.TableLookup` | pymesh/dns/server.py:132-155 | registry names resolve to the controller, other names to the last node that answers to them, bare or under .cr or .mesh |
| `DnsCache.CleanDomainIgnoresDots` | pymesh/dns/server.py:121 | leading and trailing dots do not change the name asked for |
| `DnsCache.CleanDomainExactly` | pymesh/dns/server.py:121 | the name asked for is the domain in lower case between its outermost dots |
| `DnsCache.RegistryAddress` | pymesh/dns/server.py:136-150 | registry names resolve to the controller's host, or to the default address where that host is missing, empty or local |
| `DnsTasks.SerialTaskIsAQuery` | pymesh/dns/server.py:77-159 | a query's steps, uninterrupted, have exactly the effect and the answer of one query |
| `DnsTasks.AnswersRefineTable` | pymesh/dns/server.py:77-159 | however queries interleave at their requests and requests fail, an answer fetched by its own query is the table's; any other is nothing after a failure, or the table's, or for a registry name to which a node answers too, that node's |
| `DnsTasks.AlwaysTrueIff` | pymesh/dns/server.py:77-159 | without failures every answer of every interleaving is the table's iff no name is both a registry name and that of a node at another address |
| `DnsTasks.EveryQueryIsAnsweredOnce` | pymesh/dns/server.py:77-159 | over any interleaving every query is answered once or still under way |
| `DnsTasks.RegistryNodeExample` | pymesh/dns/server.py:77-159 | a concrete interleaving in which a node called `registry` is answered for the registry |
| `Stun.ParseStunResponse` | pymesh/discovery/stun.py:85-123 | the walk returns the first IPv4 address attribute of the response, keeps the offset a multiple of four, and terminates on any bytes |
| `Stun.RoundUp4IsLeast` | pymesh/discovery/stun.py:102 | the mask rounds up to the least multiple of four |
| `Stun.AttributesRoundTrip` | pymesh/discovery/stun.py:93-102 | any list of attributes, each behind any padding bytes of its own, is read back attribute by attribute, and nothing of an incomplete attribute behind them (section 15 of RFC 5389) |
| `Stun.AddressOfInverts` | pymesh/discovery/stun.py:104-121 | the decoding inverts the encodings of sections 15.1 and 15.2 of RFC 5389, xor included |
| `Stun.AddressOfIff` | pymesh/discovery/stun.py:104-121 | an attribute of any type announces an address iff it is of one of the two address types and carries the encoding of that address; no other type does |
| `Bytes.XorInverts` | pymesh/discovery/stun.py:108-111 | xor with a fixed mask is its own inverse |
| `Bytes.DecodeAsciiConcat` | pymesh/dns/server.py:35 | decoding goes byte by byte, so that bytes from 128 on leave no trace (`DecodeOne`) |
| `Stun.ResponseRoundTrip` | pymesh/discovery/stun.py:85-123 | a response with any header, attributes and padding announces the first IPv4 address encoded in it |
| `Relay.DecodeInvertsEncodeFrame` | pymesh/relay/protocol.py:17-38 | decoding an encoded frame gives the ids cut to 32 characters without trailing NULs and the payload, whatever bytes follow |
| `Relay.EncodesIff` | pymesh/relay/protocol.py:17-23 | a frame can be encoded iff the first 32 characters of both ids are ASCII and the payload is shorter than 2^16 |
| `Relay.DecodesIff` | pymesh/relay/protocol.py:26-33 | a datagram decodes iff it has a whole header that starts with PYRELAY |
| `Relay.EncodeInvertsDecodeFrameIff` | pymesh/relay/protocol.py:17-38 | a decodable frame re-encodes to itself iff its ids are ASCII and its length is 73 plus the declared payload length |
| `Relay.IdsSurviveIff` | pymesh/relay/protocol.py:17-38 | decoding an encoded frame gives the frame back iff both ids have at most 32 characters and do not end in NUL |
| `Relay.HexIdsAreHalved` | pymesh/relay/protocol.py:18-19 | no node id of 64 hex digits survives; what is left is its first half |
| `Relay.RelayServerProtocol.DatagramReceived` | pymesh/relay/server.py:22-38 | one datagram keeps the endpoint table equal to the last announcement of every id, and sends that datagram unchanged to the destination's last announced address, or nothing |
| `Relay.RelayServerProtocol.Serve` | pymesh/relay/server.py:22-38 | the same over any run: each datagram causes at most one output, the one its own prefix of the run calls for |
| `Relay.LastAnnouncedIsLast` | pymesh/relay/server.py:29-30 | the announced address is the sender of the last decodable frame with that source, and there is none iff there is no such frame |
| `Relay.ForwardedIff` | pymesh/relay/server.py:22-38 | something is sent iff the datagram decodes and its destination is announced, and then it is that datagram to that address; an undecodable one announces nothing |
| `Relay.EncodedFramesAreForwarded` | pymesh/relay/server.py:22-38 | every encoded frame, with ids of any length, is forwarded unchanged to whoever last announced the destination's key, or dropped if nobody did, and announces its sender under the source's key |
| `Relay.KnownNodesAreReached` | pymesh/relay/server.py:27-36 | a frame to an announced key is forwarded unchanged to that address, whatever the length of the ids |
| `Relay.MisdeliveredIff` | pymesh/relay/server.py:27-36 | a frame for one id reaches the address another id has announced iff the two ids have the same key |
| `Relay.SharedHalfExample` | pymesh/relay/server.py:27-36 | two 64-digit ids with the same first half: what is sent to one arrives at the other |
| `Acl.ACLEngine.IsAllowedIff` | pymesh/controller/acl.py:17-34 | allowed iff there are no rules, or an allowing rule matches and no rule before it does |
| `Acl.OneRuleAllowsIff` | pymesh/controller/acl.py:36-75 | one rule between any two kinds of selectors, by tag or by host name, id or address: it allows iff its action is allow, the source selector means the source node, the destination selector the destination node, and port and protocol fit, a missing port fitting always |
| `Acl.GroupToGroup` | pymesh/controller/acl.py:50-69 | from one group to another both tags are needed, each on its own side |
| `Firewall.FirewallManager.ApplyRules` | pymesh/networking/firewall.py:20-52 | flushing and appending leaves exactly the compiled chain, whatever was there, so re-applying rebuilds it |
| `Firewall.CompilationPreservesVerdicts` | pymesh/networking/firewall.py:30-51 | where every rule compiles exactly, first match over the chain decides as first match over the rules |
| `Firewall.RuleEnforcedIff` | pymesh/networking/firewall.py:30-51 | the chain decides as a rule does, for all nodes and all TCP packets, iff both its selectors are `*`, it names no protocols or names tcp, and its action is `allow` or differs from it by more than letter case |
| `Firewall.RuleEnforcedOnAllIff` | pymesh/networking/firewall.py:30-51 | over all protocols the same holds iff, besides, the rule without ports names no protocols and the rule with ports names tcp and nothing else |
| `Firewall.GroupRuleExample` | pymesh/networking/firewall.py:30-51 | a rule for one group: the chain accepts every packet on the interface, the policy denies every node outside the group |
| `Firewall.EnforceableRulesEnforced` | pymesh/networking/firewall.py:30-51 | for lists of such rules: some entry matches a TCP packet iff some rule does, and then it accepts iff the policy allows; with no match the chain is silent |
| `Firewall.ChainEnforcesErasedRules` | pymesh/networking/firewall.py:30-51 | for all rules, the chain enforces on TCP the policy with selectors and protocols erased |
| `Firewall.CompiledLength` | pymesh/networking/firewall.py:35-51 | the chain has one entry per port of each rule, and one for a rule without ports |
| `Firewall.OtherInterfacesPass` | pymesh/networking/firewall.py:37-49 | the chain has no say on packets of other interfaces |

## Left out

- Nodes.RegisterNode: `last_seen` and other time stamps are not modelled; neither are the join-token check in front of the endpoint and the heartbeat, which change no address.
- Api.Endpoints.UpdateNetworkSubnet: which of two rows a commit updates first is a parameter, any strict order of the ids.
- Api.Endpoints.AddRoute: foreign keys are not enforced, as with the default database; a generated random route id is taken as given.
- Api.RunKeepsConsistent: subnet changes with the empty text as IPv6 prefix are excluded, because they can break the coupling; `Api.RunConsistentIff` says exactly when. A parameter that is left out is the default prefix, and is covered.
- Interleaving.InterleavingKeepsSound: a subnet change that succeeds while a registration of its network is under way, or that loses the coupling, is excluded, because it can break the invariant; `Interleaving.InterleavingConsistentIff` says exactly when. A subnet change is one step, and so is creating a missing network: registrations and deletions that commit between its listing of the nodes and its own commit are not modelled.
- Hosts.HostsFile.Sync: what the regular-expression library makes of a template with backslashes is a parameter, of which only the behaviour without backslashes is assumed where a lemma needs it; newline translation on reading and writing is not modelled.
- HostsBlock.SyncHostsLastWriteWins: blocks with a backslash are excluded, because what they become is the library's decision.
- HostsBlock.GeneratedBlockIsBlock: lower-casing is ASCII only.
- MagicDns.MagicDNSProtocol.BuildDnsResponse: table values are IPv4 addresses; empty or unparsable address texts are not modelled.
- DnsTasks.AnswersRefineTable: the controller's lists do not change during the run; `DnsCache.CacheHoldsLastFetched` is about those that do, one query after the other.
- DnsCache.PyMeshDNSServer.ResolveCustomTld: a malformed row that raises in the middle of a fetch is not modelled; a failed request is.
- Stun.ParseStunResponse: message type, cookie and transaction id are not checked, as in the source; sending the request is not modelled.
- Firewall.FirewallManager.ApplyRules: every `iptables` command succeeds; the jump into the chain and the policy behind it are not modelled.
- Peers.PeerManager.BuildNetworkConfig: a routed prefix and a generated host entry are different values even when their texts would be equal.
- Parsing and printing of address and prefix texts: addresses are integers and a prefix argument is already parsed or known to be malformed.
- Sockets, event loops, HTTP, upstream DNS forwarding, NAT detection, hole punching and port forwarding: their results depend on the network.
- WireGuard, interface, route and resolver commands: effects outside the program.
- Keys, signatures, hashes and tokens: library cryptography; the node id is a parameter.
- The command line, the web console, HTML pages, TLD name checks and controller federation: single-branch facts or user interface.
