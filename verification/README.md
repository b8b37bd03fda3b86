# Verified models of go-network-configurator

The library persists one change of an interface's addresses, gateways, routes, resolvers
or DHCP clients into hand-written configuration formats and, on Linux, into the running
kernel. This project models the six parts of it that parse, print, rewrite, redistribute
and undo, in Dafny 4.11, and proves what they promise. Check it with
`dafny verify dfyconfig.toml`.

| part | files |
|---|---|
| Text, addresses, sorting | `Text`, `Net`, `AddressLists`, `Sorting` |
| ifupdown: parser, printer, streaming rewriter, DHCP | `IfUpDownReader`, `IfUpDownWriter`, `IfUpDownRoundTrip`, `IfUpDownRewriter`, `IfUpDownMeaning`, `IfUpDownDHCP` |
| network-scripts: key/value lexer and printer, setters, routes | `KeyValueFile`, `KeyValueRoundTrip`, `NetworkScripts`, `NetworkScriptsRuns`, `NetworkScriptsFiles`, `NetworkScriptsMerged`, `NetworkScriptsOrderly`, `NetworkScriptsResolvers`, `NetworkScriptsSaving`, `NetworkScriptsRoutes` |
| cloud-init: subnets and routes, YAML keys, file consolidation | `CloudInitSubnets`, `CloudInitRoundTrip`, `CloudInitRoutes`, `CloudInitYaml`, `CloudInitFiles`, `Mergo` |
| netplan: loader, SetIface calls, saving under failures, backups, reloading | `NetplanLoader`, `NetplanLoaded`, `NetplanDocument`, `NetplanLifecycle`, `NetplanSaving`, `NetplanRuns`, `NetplanBackups`, `NetplanReload`, `NetplanLookalikes`, `NetplanLapses` |
| Linux configurator: transactions against a kernel | `LinuxKernel`, `LinuxAddAddress`, `LinuxSetPrimary`, `LinuxRemoveAddress`, `LinuxConfigurator`, `LinuxRuns` |
| ordering and retention | `NaturalOrder`, `Ranking`, `Retention` |

Code that works step by step is a method with its loops, proved against a specification
function of the inputs or of the old state; the theorems are lemmas about those functions.

## What the code does not keep

Where the code falls short of what its documentation promises, the model follows the code,
the exact condition is proved, and a member gives an input that shows the loss.

- An ifupdown file whose stanza of the interface starts again after another one, with a
  further interface behind it, loses lines (`ReopenedStanzaLosesAnInterface`), and body
  lines after an `auto` line inside the stanza survive it (`BodyAfterAutoSurvives`).
  `RewriteIsVerbatimIff` gives the condition for both.
- An ifupdown route without a gateway, or to an IPv6 destination with an IPv4 mask, comes
  back as a script line, and a metric of zero as 256 (`StanzaRoundTrip`,
  `RouteComesBackChanged`). An address whose mask is of the other family makes the printed
  stanza, and the file with it, unreadable if it is the first of its family
  (`BlockReadsIff`, `DottedMaskIsRejected`).
- The network-scripts printer does not escape, so a map survives its file exactly when
  every entry is well formed (`RoundTripIff`, `QuotedValueIsLost`), and a run of calls
  exactly when its last search domains are (`RunSurvivesTheFileIff`, `QuotedDomainIsLost`).
- network-scripts merges an interface's files key by key on the first call, whatever the
  call is about, so that an alias file's address goes and the other's can change its mask
  (`AliasFileIsLost`, `PrefixCrossesOver`). `AddressesKeptIff` gives the exact condition for
  any two files, `OrderlyFilesKeptIff` a simpler one for any number of files without stray
  keys, `OtherAspectsKeptIff`, `ServersKeptIff` and `OrderlyServersKeptIff` those for the
  other aspects.
- A network-scripts save that fails after it has moved a file away leaves the interface
  with a missing file, and every later save fails (`MissingAfterIff`, `FailedPlaceSticks`).
- A cloud-init save that fails between the two moves of the main file leaves no network at
  all exactly when no file after it holds one, as after any earlier save that succeeded
  (`NetworkGoneIff`, `LosesTheNetworkIff`, `TwoFilesLoseTheNetwork`,
  `SecondSaveLosesTheNetwork`).
- The rollback of AddAddress is said to restore addresses and default route. It does not
  restore the mask of a link-local address, nor a default route without a gateway when a
  gateway was asked for (`AddUndoRestoresIff`, `AddUndoFails`). SetPrimaryAddress restores
  the order exactly when link-local addresses stand first (`PromoteUndoRestoresIff`,
  `PromoteUndoFails`), and crashes on a link-local address after deleting the others
  (`PromoteCrashes`).
  RemoveAddress puts the address back last (`RemoveUndoRestoresIff`, `RemoveUndoFails`).
- cloud-init routes whose IPv6 destination has an IPv4 netmask are written as `<nil>` and
  lost on the next call (`RoutesConserved`, `TwiceIsOnceIff`, `MixedMaskIsLost`).
- A netplan file with top-level routes and no network table makes the loader panic when a
  file with interfaces follows (`RoutesFirstPanics`).
- A netplan save that fails between its two moves, or after it has removed an emptied
  file, leaves a config waiting for a missing file, and every later save fails
  (`StuckAfterSaveIff`, `StuckAfterRunIff`, `FailedMoveSticks`, `EmptiedFileSticks`).
- A netplan file named like a backup of another can be pruned while its config counts as
  clean (`GoneAfterSaveIff`, `LookalikeIsPruned`), or before its own turn, which then fails
  (`SucceedsWithLookalikesIff`, `StuckWithLookalikesIff`).
- netplan's top-level routes are not written back (`RoutesAreLost`, `RouteIsLost`).
- ifupdown's DHCP flag goes stale when two stanzas of one name disagree (`FlagsGoStale`,
  `SwitchOffStale`).

## Model

| member | source | states |
|---|---|---|
| Net.BroadcastIsGreatest | utils.go:240-260 | the broadcast address lies in its network and no address of the network is greater in numeric order |
| Net.GetBroadcast | utils.go:240-260 | the loop computes that address once address and mask are of one family, and fails exactly where a short mask would be overrun |
| Net.AllFF | utils.go:230-237 | true exactly when every byte is 0xff |
| Net.NetworkTextRoundTrip | networkScripts.go:499-530 | a network with a prefix mask reads back from its text |
| AddressLists.ReorderPrimaryAddress | networkConfigurator.go:327-341 | the target moves to the front with the caller's mask and the rest keeps its order; an absent target changes nothing |
| IfUpDownReader.IfUpDown.EnsureInterface | ifupdown.go:132-151 | finds the first interface of the name or appends a new one |
| IfUpDownReader.ScanRouteWords | ifupdown.go:386-468 | the loop over the words of a route command finds its verb, destination, gateway and metric as the specification does |
| IfUpDownReader.ScanIpWords | ifupdown.go:469-545 | the loop over the words of an ip command, with its subcommand, device and address, likewise |
| IfUpDownReader.IfUpDown.ReadFile | ifupdown.go:154-695 | the line loop with its pending address and every error return computes the reader specification on any file |
| IfUpDownWriter.Write | ifupdown.go:771-869 | the printed block is the specified one, with the keys in byte order and up and down last |
| IfUpDownRoundTrip.StanzaRoundTrip | ifupdown.go:771-869 | reading a printed stanza gives mode, gateways and keys back, the addresses that fit their masks permuted in the order first, extras, second, and each route as the reader takes it; everything but the order is as it was if and only if every address fits its mask and every route has a gateway, a metric and a destination of one family |
| IfUpDownRoundTrip.RouteComesBackChanged | ifupdown.go:854-865 | an interface with any one route that does not return, and what the route comes back as |
| IfUpDownRoundTrip.ReadBlock | ifupdown.go:154-695 | the same in the middle of any file that has no stanza of the interface yet |
| IfUpDownRoundTrip.ReadFilePrintable | ifupdown.go:154-695 | every named interface that any file reads as has a name, a mode and keys that print back; networks are the matter of the next row |
| IfUpDownRoundTrip.BlockReadsIff | ifupdown.go:297-328 | a printed stanza is read without an error if and only if the first address of each family has a mask of its own family |
| IfUpDownMeaning.DottedMaskIsRejected | ifupdown.go:297-328 | a three-line file that is read, while what is printed of it is rejected |
| IfUpDownRewriter.Save | ifupdown.go:872-1047 | the rewriting loop, or the fresh file, computes the specified lines |
| IfUpDownRewriter.RewriteIsVerbatimIff | ifupdown.go:925-1047 | the file keeps all lines of others verbatim and in order, every run of blank lines shortened to one, with the block inserted once, if and only if no own stanza reopens before another interface and no own line follows an auto line of the interface |
| IfUpDownMeaning.RewritePreservesMeaning | ifupdown.go:925-1047 | under that condition the rewritten file reads as the old interface list with the target replaced by, or followed by, what its block reads as |
| IfUpDownMeaning.FreshFileReads | ifupdown.go:905-914 | a file that did not exist reads as exactly the written interface |
| IfUpDownMeaning.ReopenedStanzaLosesAnInterface | ifupdown.go:1014-1028 | a four-line file on which rewriting drops an interface |
| IfUpDownMeaning.BodyAfterAutoSurvives | ifupdown.go:960-991 | a three-line file that rewriting does not change, so that the old setting reads as part of the new stanza |
| IfUpDownDHCP.SetDHCP | ifupdown.go:76-129 | accepted exactly under the listed conditions; only mode and flag change; the state is the one asked for exactly when the flag was not stale, and the written stanza reads as asked exactly when the mode has no stray word |
| IfUpDownDHCP.SetIfaceDHCP | ifupdown.go:1078-1099 | enabling a client drops static addresses and gateways, nothing else is touched, and the stanza reads back as asked |
| IfUpDownDHCP.FlagsGoStale | ifupdown.go:58-64 | two stanzas of one name read as an interface whose flag is stale for a request that is accepted |
| IfUpDownDHCP.SwitchOffStale | ifupdown.go:76-129 | switching DHCP off on that interface succeeds and leaves it shown as on |
| KeyValueFile.ReadLine | networkScripts.go:102-219 | one line through the quote and escape states, carried over to the next, as specified |
| KeyValueFile.ParseKeyValueFile | networkScripts.go:102-219 | the file loop with its error returns computes the specified map |
| KeyValueRoundTrip.PrintThenParse | networkScripts.go:648-660 | every well-formed map parses back from its printed lines exactly |
| KeyValueRoundTrip.Accounting | networkScripts.go:102-219 | characters are conserved: what the lexer stores and what it drops add up to the line |
| KeyValueRoundTrip.RoundTripIff | networkScripts.go:648-660 | a map parses back from its printed lines if and only if all its entries are well formed |
| KeyValueRoundTrip.QuotedValueIsLost | networkScripts.go:648-660 | a value with a space and a double quote does not parse back |
| NetworkScripts.NsInterface.MergedConfig | networkScripts.go:811-820 | the loop is the left fold of the first-non-empty-wins merge over the files |
| NetworkScripts.NsInterface.Save | networkScripts.go:636-690 | prints each key once in byte order and makes the new map the only file |
| NetworkScripts.NsInterface.SetIfaceAddresses | networkScripts.go:796-873 | the new file is the specified map over the merged old ones, whatever stale indexed keys there were |
| NetworkScripts.NsInterface.SetIfaceDNS | networkScripts.go:941-989 | the same for resolvers and search domains |
| NetworkScripts.NsInterface.SetIfaceDHCP | networkScripts.go:69-83 | the same for the DHCP flags |
| NetworkScriptsRuns.ReadBack | networkScripts.go:569-621 | after setting addresses the reader gives the first 256 IPv4 addresses in order, then all IPv6 ones, and the gateways |
| NetworkScriptsRuns.BroadcastWritten | networkScripts.go:841-848 | each BROADCASTn written is the greatest address of its network |
| NetworkScriptsRuns.ReadBackDNS | networkScripts.go:941-989 | resolvers and search domains read back in order |
| NetworkScriptsRuns.ReadBackDHCP | networkScripts.go:52-83 | the DHCP flags read back |
| NetworkScriptsRuns.Frame | networkScripts.go:796-989 | no call changes a key outside its own managed set |
| NetworkScriptsRuns.LastWriterPerAspect | networkScripts.go:796-989 | over any run of calls each aspect reads back as the last call of its kind set it, and all other keys are as at the start |
| NetworkScriptsRuns.SetAddressesSurvivesTheFile | networkScripts.go:796-873 | what SetIfaceAddresses writes parses back to the same map |
| NetworkScriptsFiles.GetInterface | networkScripts.go:562-621 | the loop over an interface's files, with the early exit of the indexed addresses, reads what the specification does |
| NetworkScriptsFiles.Perform | networkScripts.go:796-989 | carrying a list of calls out on an interface of any files leaves one file, the run of the calls on the merged map |
| NetworkScriptsFiles.ReadAfterCalls | networkScripts.go:562-621 | whatever files there were, each aspect then reads as its last call set it, or as the merged files say |
| NetworkScriptsMerged.AddressesKeptIff | networkScripts.go:811-820 | for any two files, merging them keeps every address in its own slot and adds none if and only if no slot is read from both, no prefix or netmask crosses over with another width, and no text of the first hides or completes one of the second |
| NetworkScriptsMerged.KeptIsReported | networkScripts.go:562-621 | the addresses reported after any call not about addresses are then those reported before |
| NetworkScriptsOrderly.OrderlyFilesKeptIff | networkScripts.go:811-820 | for any number of files without unreadable addresses, stray widths or gaps, the addresses reported stay if and only if no two share a slot, and otherwise there are fewer |
| NetworkScriptsMerged.AliasFileIsLost | networkScripts.go:811-820 | two files, one with a netmask and one with a prefix: any such call drops the second address and changes the first's mask |
| NetworkScriptsMerged.PrefixCrossesOver | networkScripts.go:811-820 | two files of which the second holds a prefix only: any such call changes the first's mask |
| NetworkScriptsMerged.OtherAspectsKeptIff | networkScripts.go:941-989 | exactly when gateways, search domains and DHCP flags are reported as before a call of another kind |
| NetworkScriptsResolvers.ServersKeptIff | networkScripts.go:592-600 | exactly when, by the texts of two files, a merge keeps every resolver at its own number |
| NetworkScriptsResolvers.KeptServersAreReported | networkScripts.go:592-600 | the resolvers reported after a call of another kind are then those reported before |
| NetworkScriptsResolvers.OrderlyServersKeptIff | networkScripts.go:592-600 | any number of files without unreadable or misnumbered resolvers keep them through such a call if and only if at most one has any |
| NetworkScriptsFiles.RunSurvivesTheFileIff | networkScripts.go:648-660 | after any run of calls on a well-formed map, the printed file parses back if and only if the last search domains are well formed |
| NetworkScriptsFiles.QuotedDomainIsLost | networkScripts.go:978-982 | a call whose search domains are not read back from the file it writes |
| NetworkScriptsSaving.SaveFiles | networkScripts.go:636-683 | write aside, move each old file to its backup, move the new one in, track it: each step in order and with the fault given |
| NetworkScriptsSaving.SaveSucceedsIff | networkScripts.go:636-683 | a save succeeds exactly when no tracked file is missing and no fault strikes |
| NetworkScriptsSaving.MissingAfterIff | networkScripts.go:661-683 | afterwards a tracked file is missing exactly when one was before, or the save failed after moving one away; with one missing every save fails |
| NetworkScriptsSaving.NothingIsLost | networkScripts.go:661-683 | whatever fails, the content of every old file is in its place or in its backup |
| NetworkScriptsSaving.OverwrittenIff | networkScripts.go:672-683 | a config file of another interface is overwritten exactly when a successful save has its name |
| NetworkScriptsSaving.FailedPlaceSticks | networkScripts.go:672-675 | one file that is moved away while the new one cannot be put in its place |
| NetworkScriptsRoutes.ParseIPRoutes | networkScripts.go:222-268 | the loops over routes and their options compute the specified routes |
| NetworkScriptsRoutes.RouteFiles.SetIfaceRoutes | networkScripts.go:913-938 | splits the routes by family in order and stores the words of their lines |
| NetworkScriptsRoutes.RoutesReadBack | networkScripts.go:222-268 | written routes read back per family in order; exactly those with a nil gateway or a zero metric do not come back as they were |
| CloudInitSubnets.GetInterface | cloudinit.go:548-672 | the loop over subnets reads addresses, gateways, routes and DHCP flags as specified |
| CloudInitSubnets.OwnerIsFirst | cloudinit.go:965-983 | a route's owner is the first address whose network contains its gateway, or nobody |
| CloudInitSubnets.FirstReached | cloudinit.go:968-979 | one scan finds the first route the address reaches |
| CloudInitSubnets.TakeRoutes | cloudinit.go:965-983 | the delete-and-rescan loop ends, takes exactly the owned routes in order and leaves the others in order |
| CloudInitSubnets.Collect | cloudinit.go:868-945 | gathers all routes and each resolver and search domain once |
| CloudInitSubnets.SetIfaceAddresses | cloudinit.go:868-1001 | subnet i gets exactly the routes its address owns, in their old order, and the first subnet the strays behind them |
| CloudInitRoundTrip.RouteReadsBack | cloudinit.go:872-917 | a printed route reads back exactly when it has a gateway and a destination of one family |
| CloudInitRoundTrip.SpreadPermutes | cloudinit.go:950-998 | the distribution over subnets neither loses nor invents a route |
| CloudInitRoundTrip.RoutesConserved | cloudinit.go:868-1001 | setting at least one address conserves the printable routes as a multiset; setting none drops them all |
| CloudInitRoundTrip.TwiceIsOnceIff | cloudinit.go:868-1001 | applying a call twice is applying it once, resolvers included, if and only if no address is set or every route prints |
| CloudInitRoundTrip.MixedMaskIsLost | cloudinit.go:868-1001 | subnets with one such route: it is read, gone after setting an address, and setting the address twice is not setting it once |
| CloudInitRoundTrip.AddressesReadBack | cloudinit.go:618-672 | the addresses read back in order, and a gateway exactly when some address reaches it |
| CloudInitRoutes.FindSubnet | cloudinit.go:1262-1271 | under any iteration order of the map: a subnet containing the gateway if there is one, else the first |
| CloudInitRoutes.SetIfaceRoutes | cloudinit.go:1194-1281 | fails exactly without subnets, else every route is appended to an allowed subnet and nothing but routes changes |
| CloudInitRoutes.PlacedWhereAllowed | cloudinit.go:1261-1278 | each placed route sits in a static subnet containing its gateway whenever one exists, else in the first subnet |
| CloudInitRoutes.RoutesReadBackPermuted | cloudinit.go:1209-1281 | under every iteration order the placed routes permute the requested ones, and reading back gives those that print |
| CloudInitRoutes.OnlyRoutesChange | cloudinit.go:1209-1281 | addresses, gateways, resolvers and search domains read as before |
| CloudInitRoutes.SetIfaceDHCP | cloudinit.go:1122-1155 | the clients asked for, then the old subnets that are no clients, in order |
| CloudInitRoutes.DHCPReadsBack | cloudinit.go:1122-1155 | the flags read back whatever spellings were there, the addresses stay, and an earlier call leaves no trace |
| CloudInitYaml.KeepLastPairs | cloudinit.go:244-261 | the two loops over a mapping drop each pair whose scalar key comes again |
| CloudInitYaml.SurvivorsInOrder | cloudinit.go:251-260 | a pair stays if and only if its key is no scalar or comes last, and those that stay keep their order |
| CloudInitYaml.DedupeMappingKeys | cloudinit.go:243-266 | the recursion, which prunes a mapping before visiting its children, equals the children-first specification |
| CloudInitYaml.DedupeIsUnique | cloudinit.go:241-242 | afterwards no mapping of the tree holds a scalar key twice |
| CloudInitYaml.DedupeIsIdempotent | cloudinit.go:243-266 | doing it twice is doing it once; it changes exactly the trees with a repeated key |
| CloudInitYaml.LookupKept | cloudinit.go:241-242 | last-key-wins lookup along every path finds what it found before |
| CloudInitFiles.CloudInit.Save | cloudinit.go:745-850 | file by file, writes the network value to the main one and takes it from the others, up to the first that is missing or fails |
| CloudInitFiles.FindMain | cloudinit.go:746-760 | the main file is the first that holds only network configuration, or else the first |
| CloudInitFiles.OneFileHoldsTheNetwork | cloudinit.go:762-850 | exactly one tracked file holds the network, every other key of every file is as it was, and saving again changes nothing |
| CloudInitFiles.SaveSucceedsIff | cloudinit.go:766-850 | a save succeeds exactly when every tracked file is there and none fails |
| CloudInitFiles.MissingAfterIff | cloudinit.go:833-845 | a tracked file goes missing exactly when a save fails between two moves, and then every save fails |
| CloudInitFiles.NetworkGoneIff | cloudinit.go:789-845 | for any disk and fault, no tracked file holds a network after a save exactly when it did not get past the main file and no file from there on held one but the one it lost |
| CloudInitFiles.MainKeepsItIff | cloudinit.go:789-845 | a main file that holds a network keeps one exactly when the save does not fail between its two moves |
| CloudInitFiles.LosesTheNetworkIff | cloudinit.go:789-845 | no network is left then exactly when it does, and no file after it holds one |
| CloudInitFiles.TwoFilesLoseTheNetwork | cloudinit.go:789-845 | two files that both held a network and the save after which none does |
| CloudInitFiles.SecondSaveLosesTheNetwork | cloudinit.go:789-845 | two files, a save that succeeds, and a second one after which none holds a network |
| CloudInitFiles.ReloadAfterSave | cloudinit.go:308-425 | a reload tracks only the main file, gives the saved network, opens exactly when that has ethernets or configs, and saving from there changes nothing |
| CloudInitFiles.OpenCloudInit | cloudinit.go:308-425 | opening fails exactly when the merged network has a field of another type, or neither ethernets nor configs, and otherwise tracks at least one file |
| CloudInitFiles.DisabledAmongOthersFails | cloudinit.go:340-369 | a file that is tracked and does not open |
| Mergo.FirstWins | netplan.go:345-353 | in the recursive merge a non-empty value of the first document stays, and what only the second has is added |
| NetplanLoader.MergeSection | netplan.go:336-360 | the loop over the keys of one prior section merges the shared ones into it and deletes them from the current file |
| NetplanLoader.MergeType | netplan.go:322-361 | the loop over prior configs for one type; fails exactly on a config that is not empty and has no network table |
| NetplanLoader.MergeFile | netplan.go:307-362 | the loop over types: every prior config and the rest of the file are as specified, and so are the dirty flags |
| NetplanLoaded.ReadNetplanConfigDirectory | netplan.go:257-388 | the whole load: no configs, the panic exactly when a route-only file precedes interfaces, or configs that hold the kept entries, are dirty exactly when they shared one, and are empty exactly when nothing is left |
| NetplanLoaded.EveryEntryOnceAndMerged | netplan.go:307-362 | every entry is in exactly one config, that of the first file defining it, and its value is the one it has when all network tables are merged into one |
| NetplanLoaded.UnsharedFileLoadsClean | netplan.go:307-382 | a file that shares no entry loads unchanged and is not dirty |
| NetplanDocument.OtherFieldsStay | netplan.go:689-838 | a call touches only the fields of its own aspect |
| NetplanDocument.LastChangeWins | netplan.go:689-838 | of two calls of one aspect the last decides its fields |
| NetplanDocument.DHCPReadsBack | netplan.go:97-121 | the clients read back as set, and overrides stay only through calls that keep their client on |
| NetplanDocument.UpdateNetwork | netplan.go:698-833 | changes exactly the entries that carry the interface's final name and reports whether there were any |
| NetplanSaving.CompactInPlace | netplan.go:670-683 | the in-place filter keeps exactly the configs that are not both dirty and empty, in order |
| NetplanLifecycle.SaveConfig | netplan.go:618-668 | one file's write, two moves and pruning, step by step and with the fault given, reaches the outcome of the specification |
| NetplanLifecycle.OneFileSaved | netplan.go:618-668 | for that outcome: the own file is written, removed, lost or left alone, each exactly when; other YAML files stay unless they pass for old backups; nothing else is touched but temporary files and backups |
| NetplanSaving.Netplan.Save | netplan.go:613-686 | the loop saves in order and stops at the first failure; clean configs agree with their files afterwards; it succeeds exactly when no file to be saved is missing and no fault strikes |
| NetplanSaving.SaveSucceedsIff | netplan.go:613-686 | the condition for success, in terms of the disk before |
| NetplanSaving.StuckAfterSaveIff | netplan.go:635-664 | afterwards a config waits for a missing file exactly when one did before, or the save failed after removing an emptied file, or lost the file it failed on |
| NetplanSaving.SaveKeepsValid | netplan.go:613-686 | every clean config agrees with its file whether the save succeeds or fails, and success leaves nothing dirty |
| NetplanSaving.OwnFileAfter | netplan.go:613-686 | what a save does to the file of each config: written or removed up to where it got, untouched from there on |
| NetplanSaving.OthersAfter | netplan.go:613-686 | a file that no dirty config touches is as it was, and no YAML file appears |
| NetplanSaving.RoutesAreLost | netplan.go:634-646 | a successful save takes top-level routes out of exactly the files it writes that had some |
| NetplanSaving.GoneAfterSaveIff | utils.go:450-455 | whatever the tracked files are called, a YAML file of no dirty config is gone exactly when some turn took it for a backup with enough newer ones |
| NetplanLookalikes.SucceedsWithLookalikesIff | netplan.go:613-686 | whatever the tracked files are called, a save succeeds exactly when no dirty config's file is missing, strikes a fault, or is pruned in an earlier turn |
| NetplanLookalikes.StuckWithLookalikesIff | netplan.go:635-664 | and exactly when it leaves a config waiting for a missing file |
| NetplanRuns.OpenNetplan | netplan.go:384-413 | opening fails exactly on no files, a panicking load or a table of routes, and otherwise tracks every YAML file in order; clean configs agree with their files if no name looks like a backup |
| NetplanRuns.SetIface | netplan.go:689-838 | marks and changes every config that has the interface and saves, keeps agreement and completeness, and without a fault succeeds exactly when no config waits for a missing file |
| NetplanRuns.Run | netplan.go:613-838 | carrying out a list of calls, any of which may fail anywhere, reaches the state of the run semantics and reports which succeeded |
| NetplanRuns.RunKeeps | netplan.go:613-838 | in every reachable state clean configs agree with their files and every YAML file of the directory is tracked |
| NetplanRuns.RunLeavesOthersAlone | netplan.go:613-838 | over any run files that no tracked file's saves touch never change, and no YAML file appears |
| NetplanRuns.CalmCallSucceedsIff | netplan.go:613-686 | a call during which nothing goes wrong succeeds exactly when no config waits for a missing file |
| NetplanRuns.StuckAfterRunIff | netplan.go:635-664 | a run ends with a config waiting for a missing file exactly when it began so or some call left one |
| NetplanRuns.StuckForGood | netplan.go:649-652 | from then on every call fails |
| NetplanBackups.OwnBackups | netplan.go:658-659 | at most k backups of a file after its own save; a failed save adds one only where it loses the file |
| NetplanBackups.TouchesNoOther | utils.go:448-455 | what the save of one file touches is never a backup of another |
| NetplanBackups.RunKeepsBounded | netplan.go:613-668 | over any run in which no removal fails a file with at most k backups keeps it so, but for the backup it became when it was lost |
| NetplanBackups.SavedStaysBounded | netplan.go:613-668 | every file that some call of the run saved has at most k backups right after and ever after, unless it was lost |
| NetplanReload.ReloadIsTheSame | netplan.go:257-413 | opening again when every config is clean gives the same configs in the same order, none dirty, with the empty flag recomputed |
| NetplanReload.OpenRunReopen | netplan.go:257-413 | open, any calls of which the last succeeds, and open again: it neither fails nor panics, and gives the configs as they were |
| NetplanLapses.FailedMoveSticks | netplan.go:649-664 | a run on one file: the second move fails, the file is gone, and a second call fails with no fault |
| NetplanLapses.EmptiedFileSticks | netplan.go:635-664 | a run on three files: an emptied one is removed, a later one fails, and every further call fails with no fault |
| NetplanLapses.RouteIsLost | netplan.go:634-646 | a call that takes a top-level route out of its file |
| NetplanLapses.LookalikeIsPruned | utils.go:450-455 | a call that removes the file of a clean config |
| NetplanLapses.RoutesFirstPanics | netplan.go:322-331 | two files on which the loader panics |
| LinuxAddAddress.UpdateMask | configurator_linux.go:354-391 | the loop over existing addresses changes the mask of a present one and collects the old and the new lists |
| LinuxAddAddress.UpdateRoute | configurator_linux.go:405-462 | the loop over default routes keeps, removes or changes the family's one and captures both gateways |
| LinuxAddAddress.RollBack | configurator_linux.go:513-548 | re-applies addresses and route one call at a time; what it leaves is exactly the undone state |
| LinuxConfigurator.Configurator.AddAddress | configurator_linux.go:306-568 | every outcome: new kernel state and backend calls on success, the old state when refused, the undone state when the internet is lost, and no backend or panel called unless it succeeds |
| LinuxConfigurator.Configurator.SetPrimaryAddress | configurator_linux.go:570-757 | success puts the address first with both routes kept, loss of internet re-adds the old order, and a link-local address crashes it exactly then |
| LinuxConfigurator.Configurator.RemoveAddress | configurator_linux.go:760-907 | refuses exactly the primary without the override and the loss of the gateway's last network; otherwise removes, or restores at the end of the list |
| LinuxSetPrimary.ReapplyOrder | configurator_linux.go:690-728 | deletes the family's addresses, adds them in the given order behind the link-local ones and brings the default route back |
| LinuxSetPrimary.CollectFamily | configurator_linux.go:590-617 | presence, all global addresses and those of the family, in kernel order |
| LinuxSetPrimary.DesiredOrder | configurator_linux.go:673-688 | the target in front of the others, or an entry without address when the family's list lacks it |
| LinuxRemoveAddress.ScanOthers | configurator_linux.go:840-859 | the loop finds the address, whether another one reaches the gateway, and the remaining global addresses |
| LinuxRemoveAddress.NothingDrops | configurator_linux.go:868-879 | when the removal is allowed the kernel has no reason to drop the default route |
| LinuxRuns.AddUndoRestoresIff | configurator_linux.go:508-549 | the undo leaves the kernel as it was if and only if no link-local mask was changed and no gateway was given to an on-link default route |
| LinuxRuns.AddUndoFails | configurator_linux.go:513-548 | an acceptable request of each of the two kinds |
| LinuxRuns.PromoteUndoRestoresIff | configurator_linux.go:735-745 | the undo restores if and only if no link-local address of the family stands after another |
| LinuxRuns.PromoteUndoFails | configurator_linux.go:735-745 | a list on which it does not |
| LinuxRuns.PromoteCrashes | configurator_linux.go:673-728 | a request on which promoting crashes, and what is left of the family then |
| LinuxRuns.RemoveUndoRestoresIff | configurator_linux.go:886-896 | the undo restores if and only if the address was the last of its family |
| LinuxRuns.RemoveUndoFails | configurator_linux.go:886-896 | three addresses of which the middle one, put back, stands last |
| LinuxRuns.AddTellsTheKernelsList | configurator_linux.go:384-403 | per family the backends are told the kernel's list without link-local addresses, plus a newly added link-local one |
| LinuxRuns.PromoteTellsTheKernelsList | configurator_linux.go:747-755 | per family the kernel's list, the promoted entry with the caller's mask |
| LinuxRuns.RemoveTellsTheKernelsList | configurator_linux.go:852-904 | per family the kernel's list |
| LinuxRuns.Perform | configurator_linux.go:306-907 | carrying out a list of operations reaches the state the run semantics gives |
| LinuxRuns.GatewaysStayReachable | configurator_linux.go:328-332 | over any run of successful calls every default gateway stays link-local or in some address's network, if calls that only change a mask keep it so |
| LinuxRuns.PrimaryChangesOnlyByPromotion | configurator_linux.go:861-866 | without the override a family's primary address changes only through SetPrimaryAddress |
| NaturalOrder.CompareNatural | utils.go:177-200 | the loop computes the comparison |
| NaturalOrder.LeadingDigits | utils.go:206-212 | splits off the leading run of digits |
| NaturalOrder.ValueBounds | utils.go:185-196 | a numeral of k digits without leading zeros lies between 10^(k-1) and 10^k |
| NaturalOrder.NaturalIsLexicographic | utils.go:177-200 | naturalLess is the lexicographic order of tokens, digit runs counting by value |
| NaturalOrder.NaturalTies | utils.go:177-200 | two names are incomparable exactly when their token lists are equal |
| NaturalOrder.NaturalIsStrictWeakOrder | utils.go:177-200 | hence a strict weak order, fit for sorting |
| Ranking.PreferIsStrictWeakOrder | networkConfigurator.go:388-401 | the product of state, gateway rank, name rank and natural order is a strict weak order |
| Ranking.PreferTies | networkConfigurator.go:388-430 | interfaces tie exactly when all four agree |
| Ranking.FindPhysicalInterfaces | networkConfigurator.go:373-385 | the physical interfaces and nothing else, sorted, ties in the order given |
| Sorting.StableSortCorrect | networkConfigurator.go:373-385 | the stable sort permutes, sorts and keeps ties in order under any strict weak order |
| Retention.OwnBackupMatches | utils.go:448-461 | each naming scheme's matcher accepts the backups it names |
| Retention.PruneBackups | utils.go:406-446 | removes exactly the matching files with k newer ones that can be removed, and nothing when k is not positive |
| Retention.PrunedKeepsNewest | utils.go:406-446 | the files left are the k newest by time and name, or all if fewer, and no other file goes |

## Left out

- netlink, D-Bus, nmcli, netsh, winipcfg, ICMP and HTTP: the kernel is `LinuxKernel`, and pings and internet tests are arbitrary booleans.
- The kernel model is an assumption: addresses keyed by IP, new ones appended, at most one default route per family, deleting an address may drop the default route that resolved only through it, and setting a link down only clears its flag. The real kernel lists IPv6 in another order, flushes routes with the link, and unless promote_secondaries is set deletes an IPv4 primary's secondaries with it, which bears on `ReapplyOrder` and `RollBack`.
- configurator_windows.go, dns_*.go, plesk_*.go, interworx.go, cpanel.go, networkManager.go, networkd.go, service detection and the readiness wait: command plumbing and filters.
- AddRoute, SetDNS and SetDHCP of the Linux configurator, and mergeBackendState: loops over backends that would add only easy members.
- IPv6 text: sixteen byte groups stand in for the real syntax, with the same alphabet. IPv4 dotted decimal and prefix lengths are spelled out.
- Masks that no prefix length describes: their text (a hexadecimal mask) is not modelled, so the route and address theorems ask for prefix masks.
- Text is ASCII; scanner line-length limits, file permissions and cross-device moves are left out.
- ifupdown source and source-directory lines (the reader model reports them as not modelled) and interfaces spread over several files.
- IfUpDownReader.IfUpDown.EnsureInterface: leaves out the file list that a new interface is given, as there is one file.
- IfUpDownRewriter.Save: leaves out the temporary file, the moves and the backups around the rewriting.
- NetworkScriptsMerged.KeptIsReported: one direction for files of any form, under the condition that is exact slot by slot; files that clash can by chance report the same addresses from other slots.
- NetworkScriptsResolvers.KeptServersAreReported: likewise for resolvers. For orderly files `OrderlyFilesKeptIff` and `OrderlyServersKeptIff` have both.
- IfUpDownMeaning.RewritePreservesMeaning: one direction, under the condition that is exact for keeping the lines; a damaged file can by chance still read the same.
- network-scripts: the address/netmask form of route files, aliases and hardware-address lookup when the files are found.
- NetworkScripts.NsInterface.Save: leaves out the temporary file and the moves around the printing, which are `NetworkScriptsSaving.SaveFiles`, and the pruning.
- cloud-init version 2 sections, the Control and Broadcast fields of a subnet, cloudbase-init's JSON encapsulation, and fields the structures do not know.
- CloudInitFiles.CloudInit.Save: leaves out temporary files, backups and their pruning; a failure before the old file is moved away counts as one, whatever step it is.
- CloudInitRoundTrip.AddressesReadBack: says nothing about DHCP subnets being kept, since SetIfaceAddresses clears them.
- YAML nodes are updated by value rather than in place; aliases are leaves, as they carry no content of their own.
- CloudInitFiles.OpenCloudInit: leaves out types inside the sections and the number in a version.
- YAML, JSON and mergo internals: documents are decoded values, marshalling and unmarshalling are inverse on what the structures know, and a null counts as an absent key.
- netplan: sections and fields the structures do not know are dropped by a save of their file; the model keeps only the five kinds of interfaces.
- netplan: each save's fault, time stamps and files that cannot be removed are parameters of the call; a move across devices and a pruning that cannot list the directory are not among them.
