# HW-SD: verified model of hardware discovery and announcement

HW-SD discovers GPUs and network interfaces through modules, filters what it found, and
announces it to other hosts as key/value texts over DNS-SD. This project models that
pipeline in Dafny and proves what it promises:

- **records and texts** (`Text`, `Bits`, `Records`): stream reading and printing, the
  four-character type codes, the two record types and the relations they are compared by;
- **filters** (`Chains`, `Selection`, `Dedup`, `MirrorFlags`, `Filters`): filter objects chained
  through mutable lists, the short-circuit sequence they flatten to, which records each filter
  lets through, what discovery through a chain returns, and which flags reach the results when
  duplicate and mirror filter meet;
- **the store** (`Store`, `Codec`, `RoundTrip`): the keys a record is written under, what is
  read back over any earlier contents, and exactly when it is what was announced;
- **modules** (`DnsSd`, `Registry`, `Discovery`): the DNS-SD object that writes and reads
  stores step by step, the intrusive module list with its singletons, and discovery and
  announcement over that list;
- **runs** (`Protocol`, `EndToEnd`, `Client`): many hosts announcing and browsing in any
  interleaving, the whole way from local records to a client's list, and clients that have
  local modules themselves;
- **local modules** (`Interfaces`, `MacAddress`, `Glx`): the merge of interface addresses and
  the probing of X screens.

`GPUInfo` and `NetInfo` are the two constructors of one datatype `Info`, as both derive from
`NodeInfo`; a filter's two overloads are told apart by the constructor. The module template's
two instances are the two values of `Family`, and the two DNS-SD modules, whose code differs
only in the fields they write and in the erased loopback record, are one class.
`dafny verify dfyconfig.toml` checks everything.

What the surroundings answer is a parameter: the text form and hash of node identifiers
(`IdText`, assumed to round-trip), the hosts and stores a browse finds (`Browse`), whether the
network takes an announcement (`reachable`), what a regular expression or subnet accepts, the
entries of `getifaddrs`, and what X displays report (`Displays`).

Findings, each with the lemma that pins it down:

- A second announcement does not erase optional fields of the first: flags that went away are
  still discovered (`StaleFlagsShowThrough`). `ReadAfterHistory` says what is read after any
  history: the number of records is that of the last announcement that discovered something,
  and every field holds the last text written to it. An announcement that discovers nothing leaves the old
  store in place, so that all its records are still discovered (`EmptyAnnouncementKeepsTheOld`).
  `RoundTripExactly` says exactly when an announcement over any store, empty ones included,
  comes back unchanged.
- With a mirror filter, flags get lost in both orders. Behind a mirror filter a duplicate that
  mirrors an accepted record is dropped unmerged (`MirrorFirstLosesFlags`); in front of it a
  record is dropped as a mirror before its equal is accepted (`DuplicateFirstLosesFlags`).
  `FlagsAreCounted` says which flags a result has, `FlagsConservedExactly` when none are lost and
  `OrdersAgreeExactly` when the two orders agree; the duplicate filter in front loses none if
  equal candidates have equal ids (`EqualIdsConserve`); the records kept are always the same
  (`ChainOrderOnlyMovesFlags`).
- `MirrorFilter` is documented as comparing the hostname (hwsd/filter.h:111-114); the code
  compares the id, which the model follows (`MirrorFilterComparesIds`). The verdicts agree on all
  lists exactly when, between records of one session, port, device and position, ids and names
  distinguish the same ones (`DocumentedExactly`), and one list comes out as documented exactly
  when each of its candidates gets the documented verdict (`ListsAgreeExactly`).
- README.md:29-32 of the repository says VirtualGL sets its flag on all local GPUs. The
  record of the default display keeps only `FLAG_DEFAULT` (`DefaultLosesVirtualGl`).
- README.md:59 of the repository announces network types as `TYPE_ETHERNET` and so on; the
  code writes `ETHERNET` and reads every documented name as unknown
  (`DocumentedNamesAreUnknown`). Tunnel types come back as unknown, too (`TypeNameExact`).
- Localhost marking gives all local hosts the same empty name, so equal records of two local
  hosts under one session become one (`TwoLocalHostsCollapse`). `EndToEnd` holds exactly when no
  two listed hosts clash that way (`NoClash`); one local host at most, or different sessions of
  the local ones, are enough (`OneLocalIsEnough`).
- A client with local modules discovers its own host's hardware twice. The daemon's records
  merge into the local ones, flags included, only under the session `local`; under any other
  session they are listed once more without a name (`LocalAndRemote`, `OwnHardware`).

## Model

| member | source | states |
|---|---|---|
| `Text.TokenExact` | hwsd/detail/dns_sd_module.h:71-73 | extracting a string from a stream gives back the text exactly when it holds no whitespace |
| `Text.TokenIsFirstWord` | hwsd/detail/dns_sd_module.h:71-73 | what is extracted is the first run of non-whitespace behind any blanks, and nothing from blanks alone |
| `Text.ReadUnsignedOfPrint` | hwsd/detail/dns_sd_module.h:59-106 | an unsigned written to a stream is read back, cut at the largest unsigned |
| `Text.ReadSignedOfPrint` | hwsd/detail/dns_sd_module.h:59-106 | an int, negative ones included, is written and read back unchanged |
| `Text.PrintIsDecimal` | hwsd/detail/dns_sd_module.h:96-106 | numbers are written in decimal, most significant digit first |
| `Text.ReadUnsignedExactly` | hwsd/detail/dns_sd_module.h:59-74 | an unsigned is read up to the first non-digit, negative numbers modulo its range, larger ones as the maximum |
| `Text.ReadSignedExactly` | hwsd/detail/dns_sd_module.h:59-74 | an int is read up to the first non-digit as the nearest number it can hold |
| `Text.ReadBoolExactly` | hwsd/detail/dns_sd_module.h:59-74 | a bool is whether the number read is not 0 |
| `Text.NoNumberInText` | hwsd/detail/dns_sd_module.h:59-74 | blank text leaves a number as it was, text without a number makes it 0 |
| `Text.ReadCodeExact` | hwsd/gpuInfo.cpp:32-42 | a type code survives getName and the naming constructor exactly when it has no whitespace and NULs only at its end |
| `Text.PrintIsPrefixFree` | hwsd/detail/dns_sd_module.h:96-106 | a decimal index followed by other text determines the index and the text |
| `Records.TypeNameExact` | hwsd/netInfo.cpp:43-75 | naming and parsing a network type is the identity except that both tunnels become unknown |
| `Records.DocumentedNamesAreUnknown` | hwsd/netInfo.cpp:65-75 | a type announced under its documented name is read as unknown |
| `Records.SameAndMirrorsAreIndependent` | hwsd/filter.cpp:117-131 | equal records need not be mirrors and mirrors need not be equal, shown on any GPU |
| `Records.SameExactly` | hwsd/gpuInfo.cpp:52-58 | two records are equal exactly when they differ in id and flags at most |
| `Chains.RunAppend` | hwsd/filter.cpp:57-66 | running a chain of two parts is running the second part if the first accepts, and an accepting part changes nothing |
| `Chains.RunChangesOneRecord` | hwsd/filter.cpp:93-104 | a chain changes at most the first record equal to the candidate, by merging, and only when it rejects |
| `Chains.ChainOrderOnlyMovesFlags` | hwsd/filter.cpp:57-131 | chains of the same filters in any order accept the same records in the same order, up to flags |
| `Chains.OtherFiltersAreNeutral` | hwsd/filter.cpp:68-77 | discovery through a chain is discovery through its filters that overload the record type |
| `Selection.ChainSelects` | hwsd/filter.cpp:159-286 | a chain of session, GPU and network filters gives every candidate all of them want, in order, and with the duplicate filter anywhere among them the deduplication of that |
| `Selection.SessionSelects` | hwsd/filter.cpp:159-173 | the session filter keeps exactly the records of its session, all for an empty one |
| `Selection.GpuMatchSelects` | hwsd/filter.cpp:210-223 | the GPU filter keeps exactly the GPUs whose nodeName:port.device is accepted and all interfaces, everything without an expression |
| `Selection.NetMatchSelects` | hwsd/filter.cpp:253-286 | the network filter keeps exactly the interfaces of its types whose addresses are in a subnet and all GPUs, without prefixes only by type |
| `Selection.ResultsAreWanted` | hwsd/filter.cpp:57-77 | whatever else is in a chain, every result is wanted by each of its filters |
| `Dedup.DedupeIsMerged` | hwsd/functions.cpp:35-49 | discovery through the duplicate filter is the candidates that equal no earlier one, in order, each with the or of the flags of all its equals |
| `Dedup.DedupeConservesFlags` | hwsd/filter.cpp:93-104 | no two results are equal, exactly the candidates have an equal result, and each result is a candidate with the flags of all candidates equal to it |
| `Dedup.BitOfFlags` | hwsd/filter.cpp:100-103 | a flag bit is in the merged flags exactly when some equal candidate has it |
| `Dedup.OrderDoesNotMatter` | hwsd/functions.cpp:35-49 | candidate lists with the same records up to ids, in any order and multiplicity, give the same results up to ids and positions, flags included, and equally many |
| `Dedup.DedupeIsIdempotent` | hwsd/filter.cpp:93-113 | deduplicating a result again changes nothing |
| `Dedup.DedupeConcat` | hwsd/functions.cpp:35-49 | deduplicating one list behind another gives the first one's results with the flags of their equals in the second, and then the results for what the second adds |
| `Dedup.BitOfBoost` | hwsd/filter.cpp:100-103 | such a result has the bits it had and those of the records of the second list that equal it |
| `Dedup.DuplicateCommutes` | apps/hw_sd_list/hw_sd_list.cpp:109-111 | wherever the duplicate filter stands among session, GPU and network predicate filters, the result is the deduplicated selection, flags included |
| `Dedup.PassesOfEqual` | hwsd/filter.cpp:159-286 | the predicate filters decide alike on equal records |
| `Dedup.NoDuplicatesNoMirrors` | hwsd/filter.cpp:93-131 | duplicate and mirror filter together leave no two results equal or mirrored, and every candidate equals or mirrors a result |
| `MirrorFlags.FlagsAreCounted` | hwsd/filter.cpp:93-131 | with duplicate and mirror filter in either order, each result has exactly the flags of the equal candidates that count at their place |
| `MirrorFlags.BitOfCounted` | hwsd/filter.cpp:93-131 | a flag bit is counted exactly when some equal candidate has it that is not mirrored by a record accepted before, or that finds an equal one before it in a chain with the duplicate filter first |
| `MirrorFlags.FlagsConservedExactly` | hwsd/filter.cpp:93-131 | every result has the flags of all candidates equal to it exactly when each dropped candidate that does not count has only flags that are counted elsewhere |
| `MirrorFlags.EqualIdsConserve` | hwsd/filter.cpp:93-131 | the duplicate filter in front of the mirror filter loses no flags if equal candidates have equal ids |
| `MirrorFlags.OrdersAgreeExactly` | hwsd/filter.cpp:57-131 | the two orders give the same list, flags included, exactly when the flags of every candidate both equal to and mirroring accepted records are counted elsewhere |
| `MirrorFlags.DuplicateFirstLosesFlags` | hwsd/filter.cpp:93-131 | a record dropped as a mirror before its equal is accepted takes its flags with it |
| `MirrorFlags.MirrorFilterComparesIds` | hwsd/filter.cpp:117-131 | a record of the same host, session and place under another id is kept, where the documented filter drops it |
| `MirrorFlags.DocumentedExactly` | hwsd/filter.h:106-118 | the verdicts are the documented ones exactly when ids and host names tell the same records apart |
| `MirrorFlags.ListsAgreeExactly` | hwsd/filter.h:106-118 | discovery through the mirror filter gives the documented list exactly when every candidate gets the documented verdict on the records accepted before it |
| `MirrorFlags.MirrorAsDocumented` | hwsd/filter.h:106-118 | it does when ids and host names tell the same records apart |
| `Filters.Filter.Accept` | hwsd/filter.cpp:57-66 | calling a filter of an acyclic graph, with its in-place merge, does what running its preorder flattening does to verdict and list |
| `Filters.Filter.AcceptNext` | hwsd/filter.cpp:57-77 | the base operator runs the chained filters in order up to the first that rejects |
| `Filters.Untouched` | hwsd/filter.cpp:79-89 | a filter that does not reach the one chained to keeps its flattening |
| `Filters.ExtendFlattens` | hwsd/filter.cpp:79-89 | chaining b behind a, which b does not reach, appends b's flattening to a's |
| `Filters.LinkExtends` | hwsd/filter.cpp:79-89 | chaining b behind a, which b does not reach, keeps the graph acyclic: a numbering of the new graph exists |
| `Filters.Pipe` | hwsd/filter.h:84-88 | the free operator keeps the graph acyclic and appends the right flattening to the left |
| `Filters.PipeLeft` | hwsd/filter.h:84-88 | (a, b), c flattens to the flattenings of a, b and c in order |
| `Filters.PipeRight` | hwsd/filter.h:84-88 | a, (b, c) flattens to the same sequence as (a, b), c |
| `Store.IndexKeysDiffer` | hwsd/detail/dns_sd_module.h:96-106 | the key of an indexed field determines index and field |
| `Store.KeySpacesAreDisjoint` | hwsd/detail/dns_sd_module.h:76-121 | an indexed key is neither the count nor a global key, and the count is not global |
| `Store.DocumentedGpuKeys` | README.md:47-56 | the keys of a GPU and of their count are the documented texts |
| `Store.DocumentedNetKeys` | README.md:58-66 | the keys of an interface and of their count are the documented texts |
| `Store.PutCell` | hwsd/detail/dns_sd_module.h:96-106 | setting one field of one record changes what is found under no other key |
| `Store.RowsLookup` | hwsd/detail/dns_sd_module.h:96-106 | after writing records a field holds what its record wrote, or else what was there before |
| `Store.RowsFrame` | hwsd/detail/dns_sd_module.h:96-106 | writing records leaves the count and the global keys alone |
| `Codec.RowMatchesTable` | hwsd/gpu/dns_sd/module.cpp:104-128 | the sequence of fields set for a record sets exactly the fields of the table, each to its own value |
| `Codec.HeaderLookup` | hwsd/detail/dns_sd_module.h:43-48 | after the node and the count are set each of the four keys holds its own value, and no field of any record changed |
| `Codec.ReadDependsOn` | hwsd/gpu/dns_sd/module.cpp:150-170 | what is read of a host depends only on the global keys, the count and the records below the count |
| `Codec.StoreAfterLookup` | hwsd/gpu/dns_sd/module.cpp:99-128 | after an announcement the count, the node and every record's cells are those written, and cells above the count are untouched |
| `Codec.AnnouncementIsDocumented` | README.md:43-66 | after an announcement every documented key holds the text of its field, the ones left out what they held before, and the host name is empty |
| `Codec.ReadNodeExactly` | hwsd/detail/dns_sd_module.h:50-57 | of any store, a missing id is the hash of the host, a missing name the host, a missing session the local one |
| `Codec.NothingIsKnown` | hwsd/net/dns_sd/module.cpp:166-180 | a record without any text is no GPU, or an interface with all defaults |
| `Codec.OnlyTypeIsKnown` | hwsd/gpu/dns_sd/module.cpp:154-169 | a GPU of which only the type is known has all other defaults |
| `RoundTrip.ReadBack` | hwsd/gpu/dns_sd/module.cpp:150-170 | reading over any earlier store gives the published records in order, as many as an unsigned counts, unwritten fields coming from the earlier contents; after an empty discovery, what was read before |
| `RoundTrip.RoundTripExactly` | hwsd/net/dns_sd/module.cpp:112-181 | over any store an announcement is read back unchanged but for the node exactly when every record survives and an unsigned can count them, or, if nothing is announced, when nothing is read already |
| `RoundTrip.PublishedExactly` | hwsd/net/dns_sd/module.cpp:96-106 | an announcement of interfaces drops the first loopback one and nothing else, one of GPUs nothing |
| `RoundTrip.LoopbackIsNotRead` | hwsd/net/dns_sd/module.cpp:96-139 | of announced interfaces a client reads all but the first loopback one, in their order |
| `RoundTrip.SurvivesExactly` | hwsd/gpu/dns_sd/module.cpp:110-127 | a record comes back exactly when its texts are tokens and each skipped field reads as the value that made it be skipped |
| `RoundTrip.CanonicalSurvives` | hwsd/gpuInfo.cpp:44-50 | over an empty store survival is: token texts, no tunnel, and a drawn or invalid viewport |
| `RoundTrip.SessionExactly` | hwsd/detail/dns_sd_module.h:56 | a session comes back exactly when it is one non-empty token |
| `RoundTrip.CellAfterHistory` | hwsd/gpu/dns_sd/module.cpp:103-128 | after any history a field of a record reads as the text of the last announcement that had the record and wrote the field |
| `RoundTrip.HeaderAfterHistory` | hwsd/gpu/dns_sd/module.cpp:96-103 | after any history count and node are those of the last announcement that discovered something, and without one the store is empty |
| `RoundTrip.ReadAfterHistory` | hwsd/gpu/dns_sd/module.cpp:150-170 | after any history as many records are read as that announcement published, under its session, each field with the last text written to it |
| `RoundTrip.LastAnnouncementWins` | hwsd/gpu/dns_sd/module.cpp:103-128 | after any history a last announcement of records that write all their fields is read back exactly |
| `RoundTrip.StaleFlagsShowThrough` | hwsd/gpu/dns_sd/module.cpp:126-127 | a GPU announced with flags and then without is still discovered with them |
| `RoundTrip.EmptyAnnouncementKeepsTheOld` | hwsd/gpu/dns_sd/module.cpp:96-97 | a GPU announced before an announcement that finds nothing is still discovered unchanged |
| `DnsSd.EraseFirstLoopback` | hwsd/net/dns_sd/module.cpp:99-106 | the erasing loop removes the first loopback record and no other |
| `DnsSd.MarkLocal` | hwsd/gpu/dns_sd/module.cpp:174-182 | marking in place clears the node name of exactly the records that, as found, equal a local one, and changes nothing else |
| `DnsSd.SetThenGet` | hwsd/detail/dns_sd_module.h:59-106 | a value set for a field and got into a variable of its type is the same exactly if it is no text, one token, or blank and there already; other fields, counts and global keys are undisturbed |
| `DnsSd.DnsSd.GetIndexed` | hwsd/detail/dns_sd_module.h:59-74 | reports whether the field is non-empty and parses it into the variable's old value |
| `DnsSd.DnsSd.GetValue` | hwsd/detail/dns_sd_module.h:76-94 | the same for global and resource keys |
| `DnsSd.DnsSd.WriteGpu` | hwsd/gpu/dns_sd/module.cpp:104-128 | setting a GPU's fields one by one writes its row, viewport and flags only when present |
| `DnsSd.DnsSd.WriteNet` | hwsd/net/dns_sd/module.cpp:113-139 | setting an interface's fields one by one writes its row, optional fields only when present |
| `DnsSd.DnsSd.Publish` | hwsd/net/dns_sd/module.cpp:96-139 | publishing a non-empty discovery leaves the store after header, count and all rows; an empty one leaves it alone |
| `DnsSd.DnsSd.DiscoverNode` | hwsd/detail/dns_sd_module.h:50-57 | the node is the host's unless the store names it, with its id or a hash of the host, and its session or the local one |
| `DnsSd.DnsSd.DiscoverGpu` | hwsd/gpu/dns_sd/module.cpp:154-169 | reading field by field gives the record of the cells, or none without a type |
| `DnsSd.DnsSd.DiscoverNet` | hwsd/net/dns_sd/module.cpp:166-180 | reading field by field gives the record of the cells |
| `DnsSd.DnsSd.CollectBrowse` | hwsd/gpu/dns_sd/module.cpp:142-172 | the loops over hosts and indices collect every host's records in order |
| `DnsSd.DnsSd.Discover` | hwsd/gpu/dns_sd/module.cpp:133-183 | discovery is empty while announcing, and the marked records of all hosts otherwise |
| `Registry.Stack.Last` | hwsd/module.ipp:32-39 | walking the list ends at its last module |
| `Registry.Module.constructor` | hwsd/module.ipp:22-40 | a new module is appended to the list, which stays duplicate-free and linked in order |
| `Registry.Module.Destroy` | hwsd/module.ipp:42-58 | a destroyed module leaves the list, the others keep their order; an unlisted one changes nothing |
| `Registry.Process.UseLibrary` | hwsd/gpu/dns_sd/module.cpp:74-83 | use appends the library's module if it has no instance, the DNS-SD one with a new empty service of the process's family, changes nothing otherwise, and keeps instances and list in agreement |
| `Registry.Process.DisposeLibrary` | hwsd/gpu/dns_sd/module.cpp:85-89 | dispose removes the library's module if it has one, and keeps instances and list in agreement |
| `Registry.Process.Execute` | hwsd/gpu/dns_sd/module.cpp:79-89 | after any sequence of use and dispose the list is the replay of the sequence |
| `Registry.ReplayIsRegistrationOrder` | hwsd/module.ipp:22-58 | the replay holds exactly the libraries whose last operation is a use, in the order of the first use after their last dispose |
| `Discovery.DiscoverInfos` | hwsd/functions.cpp:35-49 | walking the list and filtering record by record collects the concatenated answers through the filter's flattened chain |
| `Discovery.DiscoverDefault` | hwsd/functions.h:41-42 | without an argument discovery deduplicates the concatenated answers |
| `Discovery.SilentModule` | hwsd/gpu/dns_sd/module.cpp:136-137 | a module that answers nothing leaves the same candidates as the list without it |
| `Discovery.LocalCandidates` | hwsd/functions.cpp:35-49 | local modules contribute what the system reports to them, in list order |
| `Discovery.Announce` | hwsd/gpu/dns_sd/module.cpp:91-131 | an announcement writes what default discovery over the other modules finds, resets the flag, and succeeds when there is nothing to write or the network takes it |
| `Discovery.AnnounceAll` | hwsd/functions.cpp:25-33 | announcing all modules makes the list's one DNS-SD module announce the others, and its success is the result |
| `Discovery.AnnounceProcess` | hwsd/gpu/dns_sd/module.cpp:79-131 | in a process the singleton in use, if any, publishes what the system reported to the other registered modules |
| `Protocol.StepKeepsInvariant` | hwsd/gpu/dns_sd/module.cpp:79-131 | every step of any host, use and dispose included, keeps flag, registered module, collected records, store and history in agreement |
| `Protocol.NoEcho` | hwsd/gpu/dns_sd/module.cpp:79-137 | in every run of any hosts, all a host ever announced was answered by its own local modules; its store is that of the last announcements, those of its present DNS-SD module, and empty without one; and the flag is set only during an announcement |
| `Protocol.WalkCollects` | hwsd/functions.cpp:35-49 | whatever other hosts do in between, the visits of an announcement collect what the local modules answer, in list order |
| `Protocol.AnnouncementIsComplete` | hwsd/gpu/dns_sd/module.cpp:91-131 | an announcement over the whole list publishes exactly that without duplicates, under its session, and changes nothing else of the host |
| `Protocol.DiscoveryCollects` | hwsd/functions.cpp:35-49 | a discovery finds what every listed local module answers |
| `Protocol.DiscoveryEnds` | hwsd/functions.cpp:35-49 | after a discovery the host is idle, its store and history as before |
| `Protocol.StepsTakeEffect` | hwsd/gpu/dns_sd/module.cpp:79-89 | reports, use and dispose between discoveries change exactly what they name; disposing of the DNS-SD module empties the store |
| `Protocol.ClientsSeeLocalRecords` | hwsd/gpu/dns_sd/module.cpp:133-183 | in every run each record a client discovers, over any hosts, was announced by one of them: the always-written fields come from one record and each optional field from some record its own local modules answered, with its id, session and name, which is cleared only for a host also found locally |
| `Protocol.ClientsSeeAllRecords` | hwsd/gpu/dns_sd/module.cpp:142-182 | a visit to the DNS-SD module outside an announcement adds every record that can be read of every host of the browse, but for cleared names |
| `EndToEnd.FirstIsIntact` | hwsd/gpu/dns_sd/module.cpp:99-128 | a host that announces once comes back if its records are canonical |
| `EndToEnd.DiscoveredIsShown` | hwsd/gpu/dns_sd/module.cpp:133-183 | after any announcements whose last one survives the earlier ones, discovery gives every listed host's last published records intact, under its name or none if it is local |
| `EndToEnd.EndToEnd` | hwsd/functions.cpp:35-49 | the duplicate filter leaves each distinct host's records exactly once exactly when no two listed hosts with the same shown name and session publish equal records |
| `EndToEnd.OneLocalIsEnough` | hwsd/gpu/dns_sd/module.cpp:174-182 | one local host at most, or local hosts of different sessions, never clash |
| `EndToEnd.TwoLocalHostsCollapse` | hwsd/gpu/dns_sd/module.cpp:174-182 | two local hosts of one session whose single records differ only in id and flags are discovered as two and listed as one |
| `Client.ClientListExactly` | hwsd/functions.cpp:35-49 | whatever a client finds locally, its list is its own results with the flags of the discovered records equal to them, and then each host's records it does not hold, once, exactly when no two hosts clash in such records |
| `Client.LocalAndRemote` | apps/hw_sd_list/hw_sd_list.cpp:98-115 | with the own host the one local host, only its records under the local session add flags to the local ones; of all hosts the records the client does not hold appear once, those of other hosts and sessions in full |
| `Client.OwnHardware` | apps/hw_sd_list/hw_sd_list.cpp:98-115 | when the client holds all its daemon sends under the local session, the daemon adds nothing but flags; under any other session its records appear once more without a name |
| `Client.SameAnswers` | hwsd/filter.cpp:93-104 | when client and daemon found the same but for ids, not even flags change |
| `Client.BrowseNetwork` | hwsd/functions.cpp:35-49 | a client object with any modules around the DNS-SD one discovers that list up to ids and positions exactly when no hosts clash, and the very list when the DNS-SD one is last |
| `MacAddress.FormatWithInnerTest` | hwsd/net/sys/module.cpp:322-326 | the loop with the test inside formats the bytes |
| `MacAddress.FormatWithLastApart` | hwsd/net/sys/module.cpp:140-149 | the loop with the last byte apart gives the same text |
| `MacAddress.FormatLayout` | hwsd/net/sys/module.cpp:140-149 | n bytes give 3n-1 characters, two digits for each byte and a colon between bytes |
| `MacAddress.PairIsHexadecimal` | hwsd/net/sys/module.cpp:322-326 | a byte is two lower-case hexadecimal digits, the higher first |
| `MacAddress.DecodeFormat` | hwsd/net/sys/module.cpp:288-326 | decoding the text gives the bytes back |
| `MacAddress.FormatIsInjective` | hwsd/net/sys/module.cpp:288-326 | different addresses have different texts |
| `Interfaces.DiscoverInterfaces` | hwsd/net/sys/module.cpp:248-358 | the enumeration lists the merged records by strictly increasing name |
| `Interfaces.LessExactly` | hwsd/net/sys/module.cpp:248 | names are ordered by their first differing character, a prefix first |
| `Interfaces.ResultIsLast` | hwsd/net/sys/module.cpp:257-347 | there is one record for each name with an address, and each field is the last one resolved for that name |
| `Interfaces.InterleavingDoesNotMatter` | hwsd/net/sys/module.cpp:252-358 | reordering entries of different interfaces leaves the result unchanged |
| `Interfaces.InterfacesAreCanonical` | hwsd/net/sys/module.cpp:257-347 | enumerated interfaces with token texts survive an announcement exactly if they are no tunnels |
| `Glx.DiscoverGlx` | hwsd/gpu/glx/module.cpp:119-158 | the probe loops give the default record and then the probed screens that differ from it |
| `Glx.FoundExactly` | hwsd/gpu/glx/module.cpp:35-158 | the result is the default display's record, flagged as default only, and exactly the screens of servers 0 to 9 before each server's first gap that differ from it, each with its reported port, screen, area and flags |
| `Glx.ScreensAreAllBeforeTheFirstGap` | hwsd/gpu/glx/module.cpp:143-156 | the screens of a server are all those before the first that cannot be queried |
| `Glx.PortIsRecovered` | hwsd/gpu/glx/module.cpp:46-53 | the port parsed from a printed display name is the one printed |
| `Glx.FoundIsOrdered` | hwsd/gpu/glx/module.cpp:141-157 | behind the default the results increase by port and device, each as its own screen reports it, and no two results are equal |
| `Glx.DefaultLosesVirtualGl` | hwsd/gpu/glx/module.cpp:128-131 | when every screen has the VirtualGL flag, all results have it exactly when no default display is found |
| `Glx.FoundIsCanonical` | hwsd/gpu/glx/module.cpp:55-58 | screens with an extent survive an announcement |

## Left out

- Servus networking: browsing, timing and TXT wire encoding are a list of hosts and a map of
  texts for each. The two browses of one discovery may differ in hosts and texts, except in
  `EndToEnd.EndToEnd` and `Client.ClientListExactly`, where both find the stores the hosts
  published.
- The text form and the hash of 128-bit node identifiers: parameters, the text form assumed
  non-empty and invertible.
- Regular expressions and subnet parsing: predicates on the matched name and the two addresses.
- Cyclic filter chains, on which the original does not return.
- `DnsSd.DnsSd.DiscoverGpu`: malformed numbers are read as far as their leading digits, which
  leaves out hexadecimal prefixes and the stream's failure state.
- `Glx.PortIsRecovered`: a port text beyond the range of int, where atoi is undefined, is cut.
- `Protocol.NoEcho`: the runs are on values rather than objects; one process for each host takes
  one step at a time, as the original has no threads.
- The VirtualGL and VNC tests and the X11 calls: each display's answers are data.
- The early return of the GLX module on Apple systems, where only the default is reported.
- The Windows and ioctl enumerations but for the formatting loop, and the WGL and CGL modules:
  foreign calls that fill in records.
- Announcing on standard output, printing of records, and isLocal: text formatting only.
- The applications, the cluster script and the build files.
