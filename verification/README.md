# The seed-pods compilation engine in Dafny

This project models the core of seed-pods. seed-pods is an Internet emulator: a
Python program describes autonomous systems, routers, hosts, exchanges and the
services on them. Rendering layers in dependency order fills an emulation
model. Compilers then turn that model into deployable artefacts:

- a docker-compose project, with one directory per node holding its
  Dockerfile, start script and files;
- stand-alone `image_setup.sh` images;
- Kubernetes pod manifests;
- Graphviz drawings.

The model covers these parts:

- **The renderer** (`Renderer`). It registers layers, renders each layer after
  its dependencies, and renders each layer exactly once.
- **Files and software on nodes** (`NodeFiles`, `Software`).
- **Docker images.** These cover:
  - how the compose compiler's `DockerImage` (`ComposeImage`) and the
    stand-alone `DockerImage` (`StandaloneImage`) are built, extended and
    rebased;
  - how both render their Dockerfile or setup script (`ImageCore`);
  - which `apt-get install` lines are emitted, and that every package-manager
    package is installed by one of them.
- **Image selection for a node** (`ImageSelection`): per-node override,
  disabled images, forced image, then the default choice.
- **Grouping of packages into install tiers** shared between nodes of one
  image (`Tiering`), and the per-node image built from those tiers.
- **Naming and start commands** (`ComposeNames`). These are the compose
  directory names, network ids, role letters, the default container-name
  scheme with its sanitising, and the start-command block.
- **Self-managed network addressing** (`Addressing`, over `Ipv4`). Each
  non-bridge network takes a dummy subnet from a pool. Each interface on it
  takes a dummy address. A per-node map lets the boot script put the real
  address back.
- **The image builders** (`ImageBuilders`). They walk the service-class graph,
  collect and deduplicate software dependencies, and build the `seedemu` base
  image and the images specialised from it.
- **The reverse-DNS zone** (`ReverseDns`). It holds one PTR record per router
  or host interface, owned by the reversed address as section 3.5 of RFC 1035
  lays it out.
- **The Kubernetes compiler's naming and pod construction** (`Kubernetes`),
  including its network annotations, router detection and the one skipped
  compose service.
- **The Graphviz compiler's file-name slug** (`Graphviz`).

Python's built-ins are given Dafny definitions: `str.split`, `str.join`,
`str.replace`, `startswith`, integer formatting, `sorted(set(...))`, IPv4
address text. Exceptions and failed assertions become a `Result` whose
`Failure` carries the message. MD5 digests of file names are a parameter
`digest: string -> string`.

## Model

| member | source | states |
|---|---|---|
| Renderer.AddLayer | InternetSimulator/src/seedsim/renderer/Renderer.py:27-29 | Adding a layer fails exactly when its name is already registered. Otherwise it adds exactly that one name, not yet done, leaves every other layer unchanged, and keeps the log consistent |
| Renderer.MarkDone | InternetSimulator/src/seedsim/renderer/Renderer.py:47-48 | Marking a layer whose dependencies are all done: only that layer changes, it becomes done, and it is appended to the render log |
| Renderer.RenderLayer | InternetSimulator/src/seedsim/renderer/Renderer.py:39-48 | A missing layer fails. A done layer is left as it is. In a closed layer set rendering succeeds, leaves the layer done, never undoes a layer, and only extends the log; every layer it completes was pending |
| Renderer.RenderDeps | InternetSimulator/src/seedsim/renderer/Renderer.py:44-45 | Rendering a dependency list fails if a dependency is missing. With all dependencies present in a closed set it succeeds, and afterwards every dependency is done |
| Renderer.Render | InternetSimulator/src/seedsim/renderer/Renderer.py:56-57 | Rendering all layers succeeds exactly when every dependency names a registered layer; then every layer is done and each was logged after its dependencies |
| Renderer.RenderFromFresh | InternetSimulator/src/seedsim/renderer/Renderer.py:32-57 | Starting from nothing rendered, the log ends up holding every registered layer exactly once |
| NodeFiles.NewFile | seedemu/core/NodeFile.py:25-29 | Construction fails exactly when both content and a host path are given; otherwise it keeps path and content |
| NodeFiles.SetPath | seedemu/core/NodeFile.py:37-38 | Only the path changes |
| NodeFiles.AppendContent | seedemu/core/NodeFile.py:74-80 | Appending fails exactly for host-path files; otherwise the content becomes the old content (or none) followed by the new text |
| NodeFiles.AppendTwice | seedemu/core/NodeFile.py:74-80 | Appending `a` then `b` equals appending `a + b` |
| NodeFiles.AppendHasContent | seedemu/core/NodeFile.py:61-80 | After appending, the file has content exactly when it had some or the appended text is non-empty |
| NodeFiles.SameFileIsEquality | seedemu/core/NodeFile.py:105-110 | The field-wise comparison is exactly equality of the modelled file, hence reflexive and symmetric |
| NodeFiles.SplitLines | seedemu/core/NodeFile.py:98 | `str.splitlines()`: no line holds any of Python's line-break characters, and only empty text gives no lines |
| NodeFiles.SplitLinesTerminated | seedemu/core/NodeFile.py:98 | Splitting lines that each end in `\n` and hold no break gives the lines back |
| NodeFiles.Print | seedemu/core/NodeFile.py:89-103 | The output starts with the path/host-path header and is only that header when there is no text to show |
| NodeFiles.PrintInline | seedemu/core/NodeFile.py:89-103 | A file whose content is `\n`-terminated lines prints the header and then exactly those lines, each quoted with `> ` four columns further in |
| NodeFiles.PrintHostFile | seedemu/core/NodeFile.py:93-96 | A file with only a non-empty host path prints the lines read from the host file, quoted the same way |
| Software.NewSoftware | seedemu/core/NodeSoftware.py:21-24 | Construction fails exactly when an install script is given that is not executable |
| Software.PackageManagerIffNoScript | seedemu/core/NodeSoftware.py:42-47 | Software built without a script is always accepted; built software uses the package manager exactly when it has no script |
| Software.SameSoftwareIsEquality | seedemu/core/NodeSoftware.py:52-61 | `__eq__` is equality of name and script, and equal software has equal hash keys |
| Software.GreaterByNameOnly | seedemu/core/NodeSoftware.py:57-58 | The ordering looks only at names: it is irreflexive and transitive, total on distinct names, and blind to the script |
| Software.PackageNames | seedemu/compiler/Docker.py:313 | A name is listed exactly when some package-manager software carries it |
| Software.Scripted | seedemu/compiler/Docker.py:331 | Exactly the scripted software, each with a script |
| ImageCore.FromSection | seedemu/compiler/Docker.py:300-308 | An image without a base has no FROM. A local base is used by name; a remote base is used under its digest |
| ImageCore.TierLines | seedemu/compiler/Docker.py:319-321 | One `apt-get install` line per tier, holding that tier's sorted, de-duplicated package names |
| ImageCore.Without | seedemu/compiler/Docker.py:318-323 | The remaining names are exactly those not already installed by a tier |
| ImageCore.PackageSectionSingleLine | seedemu/compiler/Docker.py:313-328 | Without tiers, there is no install line when there are no packages, and otherwise exactly one line holding exactly the package names, sorted |
| ImageCore.EmptyTiersLikeNoTiers | seedemu/compiler/Docker.py:315-326 | An empty tier list emits the same install lines as no tiers |
| ImageCore.PackageSectionTiered | seedemu/compiler/Docker.py:315-326 | With tiers, line `k` installs exactly tier `k`. One extra line follows exactly when some package is in no tier, and it installs exactly those packages |
| ImageCore.PackageSectionInstallsEverything | seedemu/compiler/Docker.py:312-328 | Every package-manager package of the image is installed by some emitted line, and every installed name is one of the image's packages or a tier member |
| ImageCore.ScriptSection | seedemu/compiler/Docker.py:330-335 | Nothing when no software is scripted. Otherwise a comment, then copy/chmod/run of each script in order, with no install line and no FROM |
| ImageCore.Minus | seedemu/compiler/Docker.py:353-355 | The result holds exactly the listed software that the base does not have, and it is no longer than the list |
| ImageCore.MinusAppend | seedemu/compiler/Docker.py:353-355 | Filtering a concatenation is filtering each part, in order, so the list keeps the input's order and repeats |
| ImageCore.MinusSingle | seedemu/compiler/Docker.py:353-355 | A one-element list keeps its element exactly when the base does not have it, and is otherwise emptied |
| ImageCore.TiersMeeting | seedemu/compiler/Docker.py:358-363 | Exactly the tiers that share a package with the remaining software |
| ImageCore.TiersMeetingAppend | seedemu/compiler/Docker.py:358-363 | Selecting from a concatenation is selecting from each part, in order |
| ImageCore.TiersMeetingSingle | seedemu/compiler/Docker.py:358-363 | One tier is kept exactly when it shares a requirement with the software |
| ImageCore.RenderAppend | seedemu/compiler/Docker.py:291-340 | Rendering distributes over concatenation of instruction lists |
| ComposeImage.NewImage | seedemu/compiler/Docker.py:226-234 | Construction fails exactly for a non-local image with a base. Otherwise it keeps name and software, and the directory defaults to the name |
| ComposeImage.AddSoftware | seedemu/compiler/Docker.py:257-264 | Appends the software and changes nothing else |
| ComposeImage.AddMissingIsMinus | seedemu/compiler/Docker.py:350-355 | Adding each software not in the base appends exactly the base-minus list |
| ComposeImage.DockerFile | seedemu/compiler/Docker.py:291-340 | The Dockerfile ends in CMD, starts FROM the (digested if remote) base when there is one, and has no FROM otherwise |
| ComposeImage.DockerFileAptLines | seedemu/compiler/Docker.py:291-340 | The only install lines of the Dockerfile are those of its package section |
| ComposeImage.DockerFileInstallsEverything | seedemu/compiler/Docker.py:291-340 | Every package of the image is installed by some line of its Dockerfile, and every line installs only its packages or tier members |
| ComposeImage.RebaseAsWritten | seedemu/compiler/Docker.py:342-366 | Rebasing fails exactly when the image has no tiers or an empty tier list. Otherwise it keeps name and directory, becomes local on the new base, drops the base's software, and keeps the tiers that still meet it |
| ComposeImage.RebaseCorrected | seedemu/compiler/Docker.py:342-366 | Rebasing never fails: with no or empty tiers the result has none, otherwise the meeting tiers. It agrees with the as-written version wherever that succeeds |
| StandaloneImage.NewImage | seedemu/compiler/DockerImage.py:42-60 | Construction fails exactly for a non-local image with a base. Otherwise the software is the given list minus the base's |
| StandaloneImage.AddSoftware | seedemu/compiler/DockerImage.py:78-91 | Software the base already has is ignored; otherwise it is appended; nothing else changes and no base software ever enters |
| StandaloneImage.AddMissingIsMinus | seedemu/compiler/DockerImage.py:54-60 | The constructor's loop appends exactly the base-minus list |
| StandaloneImage.ImageSetup | seedemu/compiler/DockerImage.py:118-172 | The setup ends in CMD, starts FROM the base when there is one, and has no FROM otherwise |
| StandaloneImage.ImageSetupAptLines | seedemu/compiler/DockerImage.py:118-172 | The install lines are `apt-utils` followed by those of the package section |
| StandaloneImage.ImageSetupInstallsEverything | seedemu/compiler/DockerImage.py:118-172 | Every package of the image is installed by some setup line, every installed name is `apt-utils`, one of its packages or a tier member, and every line is sorted |
| StandaloneImage.RebaseAsWritten | seedemu/compiler/DockerImage.py:174-198 | As the compose version: fails exactly with no or empty tiers, and keeps no base software |
| StandaloneImage.RebaseCorrected | seedemu/compiler/DockerImage.py:174-198 | Never fails, keeps no base software, and agrees with the as-written version where that succeeds |
| ImageSelection.Find | seedemu/compiler/Docker.py:642-651 | Finds an entry exactly when some catalog entry has that name, and the found entry has it |
| ImageSelection.NewCompiler | seedemu/compiler/Docker.py:427-480 | A fresh compiler holds only `ubuntu:20.04` at priority 0, nothing forced, nothing disabled, no overrides |
| ImageSelection.AddImage | seedemu/compiler/Docker.py:486-502 | Adding fails exactly when the name is taken. Otherwise it appends the entry, keeps names distinct, and leaves lookup of every other name unchanged |
| ImageSelection.ForceImage | seedemu/compiler/Docker.py:513-526 | Only the forced image changes |
| ImageSelection.DisableImages | seedemu/compiler/Docker.py:528-539 | Only the disabled flag changes |
| ImageSelection.SetImageOverride | seedemu/compiler/Docker.py:541-554 | The node's key maps to the image name; every other override and the rest of the compiler is unchanged |
| ImageSelection.MinMissing | seedemu/compiler/Docker.py:668-681 | The least number of missing packages over the catalog, attained by some image |
| ImageSelection.ScanFindsMinimum | seedemu/compiler/Docker.py:668-681 | The candidate loop ends with exactly the images missing the fewest packages, in catalog order, and at least one |
| ImageSelection.TieBreakAsWritten | seedemu/compiler/Docker.py:683-687 | The loop as written picks the last candidate whose priority is at least the first candidate's: every later candidate is below the first one |
| ImageSelection.LastAtLeastLatest | seedemu/compiler/Docker.py:683-687 | When some candidate reaches a priority, the scan keeps the last one that does |
| ImageSelection.TieBreak | seedemu/compiler/Docker.py:683-687 | The chosen image is one of the candidates, and no candidate has a higher priority |
| ImageSelection.TieBreakLatest | seedemu/compiler/Docker.py:683-687 | Among candidates of the highest priority, the chosen one is the last added: every later candidate has a lower priority |
| ImageSelection.SelectDefaultAsWritten | seedemu/compiler/Docker.py:668-689 | Fails exactly on an empty catalog; otherwise returns the last catalog image |
| ImageSelection.SelectDefault | seedemu/compiler/Docker.py:668-689 | Fails exactly on an empty catalog. Otherwise it returns the catalog entry missing the fewest packages with the highest priority among those, and no later entry missing as few has as high a priority, so the latest added wins a tie |
| ImageSelection.TieBreakInCatalog | seedemu/compiler/Docker.py:668-687 | The tie-break over the scan's candidates is the catalog entry with the fewest missing, highest priority and latest position |
| ImageSelection.TieBreakTopAt | seedemu/compiler/Docker.py:683-687 | The tie-break over the entries with a given number missing is the highest-priority such catalog entry, and no later such entry is as high |
| ImageSelection.TieBreakTopsCatalog | seedemu/compiler/Docker.py:683-687 | No catalog entry with that number missing outranks the tie-break's choice |
| ImageSelection.WithMissingLater | seedemu/compiler/Docker.py:668-681 | The candidates keep catalog order: a bound on the candidates after one candidate bounds every later catalog entry with as many missing |
| ImageSelection.SelectImage | seedemu/compiler/Docker.py:631-689 | A per-node override wins, then disabled images (the built-in image), then a forced image, then the documented default choice; a named image missing from the catalog fails |
| ImageSelection.SelectImageAsWritten | seedemu/compiler/Docker.py:631-689 | The same override, disabled and forced branches; in the default branch it fails only on an empty catalog and otherwise returns the last catalog image |
| ImageSelection.SelectImageAsWrittenDiffers | seedemu/compiler/Docker.py:668-689 | With the built-in image, `a` holding the node's package, then an empty `b`, the program picks `b` where the documented choice is `a` |
| ImageSelection.OverrideWins | seedemu/compiler/Docker.py:642-651 | An existing override image is chosen whatever forcing or disabling says |
| ImageSelection.DisableWinsOverForce | seedemu/compiler/Docker.py:653-666 | With no override, forcing an image makes no difference once images are disabled |
| ImageSelection.FreshCompilerChoosesUbuntu | seedemu/compiler/Docker.py:631-689 | A fresh compiler chooses `ubuntu:20.04` for every node |
| ImageSelection.SelectReturnsLastImage | seedemu/compiler/Docker.py:689 | Counterexample: the only candidate is image `a`, yet the as-written choice returns `b` |
| ImageSelection.TieBreakIgnoresHigherPriority | seedemu/compiler/Docker.py:683-687 | Counterexample: with priorities 0, 5, 1 the as-written loop picks priority 1 |
| Tiering.Members | seedemu/compiler/Docker.py:571-583 | Fails exactly when the choice fails for some grouped node. Otherwise it lists the grouped nodes in registry order, one member each, with the image `_selectImageFor` as written chooses for it |
| Tiering.GroupedNodes | seedemu/compiler/Docker.py:571-573 | Exactly the nodes of the router, host, service-node and route-server kinds, no more of them than objects |
| Tiering.CountPositive | seedemu/compiler/Docker.py:590-595 | Software is referenced exactly when its count is positive |
| Tiering.Entries | seedemu/compiler/Docker.py:585-595 | The package-manager software of exactly the nodes using the image |
| Tiering.TierAt | seedemu/compiler/Docker.py:602-608 | Pass `k`'s tier is exactly the image's packages referenced exactly `k` times, without repeats |
| Tiering.Levels | seedemu/compiler/Docker.py:602-615 | The passes that append a tier to a node, in strictly decreasing order: exactly the levels at which the node needs a package |
| Tiering.Attribute | seedemu/compiler/Docker.py:611-615 | A node gets no attribute exactly when no pass touches it; otherwise one tier per such pass, in pass order |
| Tiering.GroupSoftware | seedemu/compiler/Docker.py:556-620 | One attribute per grouped node, each as described for a single node |
| Tiering.TierIffNeeded | seedemu/compiler/Docker.py:606-615 | A node receives pass `k`'s tier exactly when it holds a package referenced `k` times |
| Tiering.EveryPackageTiered | seedemu/compiler/Docker.py:590-615 | When nodes list each package once, every package of every node lands in one of its tiers |
| Tiering.NoPackagesNoAttribute | seedemu/compiler/Docker.py:611-615 | A node without package-manager software gets no attribute |
| Tiering.DuplicateEntryGetsNoTier | seedemu/compiler/Docker.py:590-607 | A package listed twice by the one node of an image is counted 2 times but never forms a tier |
| Tiering.WholeTierInstalled | seedemu/compiler/Docker.py:606-615 | A node receives a whole tier, including packages it never asked for |
| Tiering.NodeImage | seedemu/compiler/Docker.py:622-629 | The node image is local on the built-in base, named after the node, with the node's software and tier attribute |
| Tiering.NodeWithoutPackagesFailsToCompile | seedemu/compiler/Docker.py:964-967 | A node with no package-manager software cannot be rebased as written |
| Tiering.NodeWithoutPackagesCompilesCorrected | seedemu/compiler/Docker.py:964-967 | The corrected rebase gives such a node its software minus the base's, with no tiers |
| ComposeNames.ContextToPrefix | seedemu/compiler/Docker.py:845-854 | The directory prefix is `<type>_<scope>_` |
| ComposeNames.NodeDirNameInjective | seedemu/compiler/Docker.py:881-883 | Distinct scope, type or name give distinct node directories, as long as scope and type hold no `_` |
| ComposeNames.NetId | seedemu/compiler/Docker.py:889-892 | A bridge network keeps its name; any other is prefixed by its scope's `net` prefix |
| ComposeNames.RoleText | seedemu/compiler/Docker.py:832-843 | Hosts, routers and route servers get `h`, `r` and `rs`; any other role raises |
| ComposeNames.SanitizeAt | seedemu/compiler/Docker.py:1003 | Each character outside `[a-zA-Z0-9_.-]` becomes `_`, the rest are kept |
| ComposeNames.SanitizeFixed | seedemu/compiler/Docker.py:1003 | A name is unchanged by sanitising exactly when it already uses only allowed characters |
| ComposeNames.SanitizeIdempotent | seedemu/compiler/Docker.py:1003 | Sanitising twice is sanitising once |
| ComposeNames.DefaultContainerName | seedemu/compiler/Docker.py:994-1003 | The default name fails exactly for an unnamed role or a node without interfaces. Otherwise it uses only allowed characters and starts with `as<asn>` |
| ComposeNames.StartLines | seedemu/compiler/Docker.py:969-978 | One line per start command, in order, preceded by the address-replacement script when networks are self-managed; forked commands end in ` &` |
| ComposeNames.StartCommandsLines | seedemu/compiler/Docker.py:969-978 | Split at newlines, the start-command block gives back exactly those lines |
| Ipv4.OctetsRoundTrip | seedemu/compiler/Docker.py:902-905 | An address is recovered from its four octets |
| Ipv4.AddrTextInjective | seedemu/compiler/Docker.py:902-905 | Distinct addresses print differently |
| Ipv4.CidrTextInjective | seedemu/compiler/Docker.py:902-905 | Distinct prefixes print differently |
| Addressing.SubnetInside | seedemu/compiler/Docker.py:1024-1027 | Every pool subnet lies inside the pool's range and the address space |
| Addressing.SubnetsDisjoint | seedemu/compiler/Docker.py:1024-1027 | Different pool subnets share no address |
| Addressing.NextSubnet | seedemu/compiler/Docker.py:1025 | Drawing from the pool fails exactly when the mask is unusable or the pool is exhausted; otherwise it takes the next subnet |
| Addressing.NewState | seedemu/compiler/Docker.py:427-470 | Starting state: fails exactly for a malformed range, otherwise valid with nothing compiled |
| Addressing.CompileNet | seedemu/compiler/Docker.py:1015-1035 | A virtualised network takes a fresh subnet no other network holds, with cursor 2, and compose declares it; any other network keeps its real prefix and changes nothing |
| Addressing.TakeAddress | seedemu/compiler/Docker.py:895-900 | The address at the cursor, at least offset 2 inside the dummy subnet, with the cursor advanced; past the subnet it fails |
| Addressing.CompileIface | seedemu/compiler/Docker.py:887-920 | Fails exactly when the interface is virtualised and its network has no dummy subnet or the subnet's cursor is past its end. A virtualised interface otherwise gets the next dummy address and a map entry with its real address; any other keeps its real address and adds no entry |
| Addressing.CompileIfaces | seedemu/compiler/Docker.py:887-920 | The state stays valid and grows; one output per interface |
| Addressing.CompileIfacesDistinct | seedemu/compiler/Docker.py:895-900 | Two virtualised interfaces of one node never share a dummy address |
| Addressing.SuccessiveNodesDistinct | seedemu/compiler/Docker.py:895-900 | Interfaces of nodes compiled one after another never share a dummy address |
| Addressing.Lookup | seedemu/compiler/Docker.py:86 | The map line found has the address as its first field; none is found exactly when no line does |
| Addressing.MapTextLines | seedemu/compiler/Docker.py:902-905 | The map file splits back into exactly its entry lines |
| Addressing.EntryLineField | seedemu/compiler/Docker.py:86-88 | Cutting a map line at its comma gives back the dummy and the real address |
| Addressing.CompiledRewrite | seedemu/compiler/Docker.py:80-93 | The boot script turns each virtualised interface's dummy address into that interface's real address and prefix length |
| Addressing.CompiledRewriteOthers | seedemu/compiler/Docker.py:80-93 | An address that is no interface's dummy is left alone |
| Addressing.DefaultPoolTwoNetworks | seedemu/compiler/Docker.py:431-432 | On the default pool, two networks with the same real prefix get `10.128.0.0/24` and `10.128.1.0/24` |
| ImageBuilders.PackageSet | seedemu/compiler/DockerImageBuilders.py:9-19 | Exactly the package-manager software |
| ImageBuilders.ScriptsInOrder | seedemu/compiler/DockerImageBuilders.py:9-19 | Exactly the scripted software, without repeats |
| ImageBuilders.ScriptsFirstOccurrenceOrder | seedemu/compiler/DockerImageBuilders.py:9-19 | Scripted software keeps the order of first occurrence |
| ImageBuilders.Dedupe | seedemu/compiler/DockerImageBuilders.py:9-19 | The same software without repeats: packages first, then scripts in first-occurrence order |
| ImageBuilders.CollectedFrom | seedemu/compiler/DockerImageBuilders.py:24-39 | Software is collected exactly when some visited class declares it |
| ImageBuilders.OnlyExcludedDeclares | seedemu/compiler/DockerImageBuilders.py:24 | Software declared only by excluded classes is never collected |
| ImageBuilders.EnqueueSubs | seedemu/compiler/DockerImageBuilders.py:46-48 | Only unchecked, non-excluded subclasses are queued, without repeats |
| ImageBuilders.WalkClasses | seedemu/compiler/DockerImageBuilders.py:21-54 | The walk visits each class once, never an excluded one, and every visit but the root is reached from an earlier visit. It fails exactly when it visits a class whose `softwareDeps` raises `TypeError` on both calls, and stops there. Otherwise the root is visited exactly when not excluded, the visits are closed under non-excluded subclasses, and the collected software is that of the visited classes |
| ImageBuilders.StopAt | seedemu/compiler/DockerImageBuilders.py:23-39 | Popping a non-excluded class extends the visits to a valid walk prefix |
| ImageBuilders.SeedDeps | seedemu/compiler/DockerImageBuilders.py:56-57 | Fails exactly when the walk does; otherwise it holds the deduplicated software of exactly the visited classes |
| ImageBuilders.SeedemuImage | seedemu/compiler/DockerImageBuilders.py:59-75 | Fails exactly when the walk does; otherwise it is `<owner>/seedemu`, local on `ubuntu:20.04`, with exactly the collected software, once each |
| ImageBuilders.DeclaredDeps | seedemu/compiler/DockerImageBuilders.py:78-89 | Fails exactly when a named class does not return a list from `softwareDeps()` called without arguments; otherwise it collects their software in order |
| ImageBuilders.SpecialisedImage | seedemu/compiler/DockerImageBuilders.py:77-91 | `<owner>/<suffix>`, local on the `<owner>/seedemu` image of a finished walk, holding exactly the named classes' software not in that base. It fails exactly when a named class does not take the bare call or the walk fails |
| ImageBuilders.ClosedUnder | seedemu/compiler/DockerImageBuilders.py:46-52 | A finished walk contains every non-excluded subclass of a class it visited |
| ImageBuilders.CompleteVisitsReverseDns | seedemu/services/ReverseDomainNameService.py:5-14 | Every finished walk of the installer hierarchy visits the reverse DNS server, whose `softwareDeps` is a property |
| ImageBuilders.ReverseDnsBreaksSeedemuImage | seedemu/compiler/DockerImageBuilders.py:27-39 | Building the seedemu image over that hierarchy fails, at the reverse DNS server |
| ImageBuilders.Fixed | seedemu/services/ReverseDomainNameService.py:13-20 | Turning each property into a class method keeps the classes and subclasses, leaves no raising class, and contributes what the getter returns |
| ImageBuilders.FixedSameWalk | seedemu/compiler/DockerImageBuilders.py:41-48 | A walk is finished on the fixed graph exactly when it is finished on the original |
| ImageBuilders.SeedemuImageFixed | seedemu/compiler/DockerImageBuilders.py:59-75 | With class methods throughout, the seedemu image is always built from a finished walk and holds exactly the software the visited classes are meant to contribute |
| ReverseDns.ReverseTextTwice | seedemu/services/ReverseDomainNameService.py:63 | Reversing dotted labels twice gives the text back |
| ReverseDns.OwnerLabels | seedemu/services/ReverseDomainNameService.py:63 | The owner's labels are the address's octets, last first, and hold only digits and dots |
| ReverseDns.OwnerInjective | seedemu/services/ReverseDomainNameService.py:63 | Distinct addresses own distinct names |
| ReverseDns.Context | seedemu/services/ReverseDomainNameService.py:56-59 | An exchange's node is `rs` under the exchange's name; anything else sits under `as<scope>` |
| ReverseDns.Record | seedemu/services/ReverseDomainNameService.py:65 | No underscore survives in a record |
| ReverseDns.RecordOwner | seedemu/services/ReverseDomainNameService.py:63-65 | A record starts with its reversed address and ` PTR ` |
| ReverseDns.EntryRecords | seedemu/services/ReverseDomainNameService.py:53-66 | One record per interface of a router or host, in order; none for other entries |
| ReverseDns.ZoneRecordsCount | seedemu/services/ReverseDomainNameService.py:52-66 | The zone has exactly one record per router or host interface |
| ReverseDns.ZoneRecordsComplete | seedemu/services/ReverseDomainNameService.py:52-66 | Every router or host interface has its record in the zone |
| ReverseDns.ZoneRecordsSound | seedemu/services/ReverseDomainNameService.py:52-66 | Every zone record is that of some router or host interface |
| ReverseDns.Install | seedemu/services/ReverseDomainNameService.py:41-42 | Installing the layer on a node always fails |
| Kubernetes.KubeName | seedemu/compiler/Kubernetes.py:70-71 | Each `_`, `.` or space becomes `-`; the rest is kept |
| Kubernetes.KubeNameFixed | seedemu/compiler/Kubernetes.py:70-71 | A name is unchanged exactly when it holds none of those characters |
| Kubernetes.KubeNameIdempotent | seedemu/compiler/Kubernetes.py:70-71 | Converting twice is converting once |
| Kubernetes.KubeNameMerges | seedemu/compiler/Kubernetes.py:70-71 | `a_b`, `a.b` and `a b` all become `a-b` |
| Kubernetes.YamlFileNameParts | seedemu/compiler/Kubernetes.py:73-74 | The file name splits at dots into the converted name and `yml` |
| Kubernetes.AnnotationName | seedemu/compiler/Kubernetes.py:92-95 | Exchange interfaces are named `net-ix-…`, others `net-<asn>-…` |
| Kubernetes.AnnotationNameInjective | seedemu/compiler/Kubernetes.py:92-95 | For a numeric ASN, distinct interfaces get distinct annotation names |
| Kubernetes.DefaultRouteOfCidr | seedemu/compiler/Kubernetes.py:97-98 | A host's default route is the `.254` address of its /24 |
| Kubernetes.NetworkAnnotations | seedemu/compiler/Kubernetes.py:86-100 | One annotation per network, in order. Building them fails exactly when a host network has no address; routers carry no default route |
| Kubernetes.RoutersHaveNoDefaultRoute | seedemu/compiler/Kubernetes.py:96-98 | An annotation lacks a default route exactly for routers; a host's holds its gateway |
| Kubernetes.IsRouterIffRole | seedemu/compiler/Kubernetes.py:126-129 | A service is a router exactly when its role starts with `Route` |
| Kubernetes.RouterRoles | seedemu/compiler/Kubernetes.py:126-129 | `Router` and `Route Server` are routers |
| Kubernetes.OtherRoles | seedemu/compiler/Kubernetes.py:126-129 | `Host` and `Emulator Service Worker` are not |
| Kubernetes.ServicePod | seedemu/compiler/Kubernetes.py:103-136 | Fails exactly when the service is not a router and one of its networks has no address. Otherwise the pod has the service's file name, name, image and container name, the given namespace, and one annotation per network in network order |
| Kubernetes.ParseServices | seedemu/compiler/Kubernetes.py:102-136 | A pod for each kept service, in order |
| Kubernetes.ParseServicesFails | seedemu/compiler/Kubernetes.py:102-136 | The parse fails exactly when one kept service fails to become a pod |
| Kubernetes.Store | seedemu/compiler/Kubernetes.py:136 | The files afterwards are stored under the old names plus the pods' file names |
| Kubernetes.StoreLastWins | seedemu/compiler/Kubernetes.py:136 | A pod that no later pod shares a file name with is the one left under that name |
| Kubernetes.StoreKeeps | seedemu/compiler/Kubernetes.py:81-136 | A file (a network's, say) whose name no pod uses is left as it was |
| Kubernetes.ParseServicesInto | seedemu/compiler/Kubernetes.py:102-136 | Fails exactly when a kept service fails; otherwise every kept service has a file under its YAML name and no other name is added |
| Kubernetes.SecondPodWins | seedemu/compiler/Kubernetes.py:136 | Two services with the same YAML name leave only the second one's pod |
| Kubernetes.CollidingServicesKeepLast | seedemu/compiler/Kubernetes.py:73-74 | Services `a_b` then `a.b` end up as a single `a-b.yml` holding the pod of `a.b` |
| Kubernetes.Kept | seedemu/compiler/Kubernetes.py:104 | Exactly the services other than the skipped one |
| Kubernetes.SkippedHasNoPod | seedemu/compiler/Kubernetes.py:104-107 | No pod carries the skipped service's name |
| Graphviz.Slugify | seedemu/compiler/Graphviz.py:9-10 | The slug holds only letters, digits and spaces and never ends in a space |
| Graphviz.SlugifySubsequence | seedemu/compiler/Graphviz.py:9-10 | The slug is the name with characters deleted, order kept |
| Graphviz.SlugifyFixedIff | seedemu/compiler/Graphviz.py:9-10 | A name is its own slug exactly when it holds only letters, digits and spaces and does not end in a space |
| Graphviz.SlugifyIdempotent | seedemu/compiler/Graphviz.py:9-10 | Slugifying twice is slugifying once |

## Left out

- Renderer.Render: requires a rank that decreases along every dependency, so the dependency graph is acyclic. With a cycle, `Renderer.render` recurses until Python's recursion limit raises, and that path is not modelled. `RenderLayer` and `RenderDeps` take the same witness.
- File-system effects are not modelled: `mkdir`, `chdir`, writing Dockerfiles, YAML and JSON files, and copying host files.
- The compose service templates, port, volume and label blocks, and the dummy services of `_makeDummies` are left out. They are text formatting with no decisions in them.
- Logging is left out.
- MD5 is the parameter `digest`. Only its use as a file name matters.
- NodeFiles.Print: reading the host file is the parameter `read`. A host file that cannot be read raises in Python, and that path is not modelled.
- The layer registry of `Renderer.addLayer` and each layer's `onRender` body are left out. The model records only which layers are done and in what order.
- Python reflection is left out: `__subclasses__()` and `softwareDeps()` on classes are replaced by an abstract class graph (`ImageBuilders.ClassGraph`).
- Set and dict iteration order is not modelled. `ImageBuilders.Dedupe` chooses the packages in any order, and its contract holds for every order.
- ImageBuilders.Dedupe: the packages come first in an unspecified order, where Python uses the iteration order of a set.
- `Graphviz.Kept` uses ASCII letters and digits. Python's `isalpha`/`isdigit` also accept other Unicode letters and digits.
- Kubernetes.ParseServices: takes each service's role, ASN and networks already read from its labels. The label-by-label parsing, the `/24` mask label and `getAlphaNumeric` on class labels are left out. It returns one pod per kept service; the dict `self.__files`, where colliding YAML names keep only the last write, is `Kubernetes.ParseServicesInto`. The YAML text of each pod and network is not modelled.
- The Kubernetes `parseNetworks` and `compile` steps only format templates, and are left out.
- Addressing.Lookup: `grep "$addr"` matches the address as a regular expression anywhere in a map line. The model matches it exactly against the first field. The two agree only when the dummy address text occurs nowhere else in the map, and the model does not prove that.
- `ipaddress` raises on a malformed pool when the compiler is constructed. `Addressing.NewState` fails at that point too, but only for a malformed range: a bad mask surfaces at the first draw, as Python's lazy generator does.
- ComposeNames.DefaultContainerName: only the default naming scheme `as{asn}{role}-{displayName}-{primaryIp}` is modelled. A user-supplied format string is not.
- Tiering.Members: the registry is a sequence in registration order. Python's dict keeps that order too.
- ImageSelection.SelectImage: its default branch is the documented choice (`SelectDefault`), the corrected half of the first finding. The program's choice is `SelectImageAsWritten`, and the grouping in `Tiering` is built on that one. The tiering lemmas are stated over any member list, so they hold for either choice.
- ImageBuilders.SpecialisedImage: built on the as-written `SeedemuImage`, as the `get_seedemu_*_image` functions call it, so it fails on a graph with a property `softwareDeps`. The corrected behaviour is the same member over `ImageBuilders.Fixed(g)`.
- ImageBuilders.WalkClasses: a `softwareDeps` is one of a class method, a plain method, one raising `NotImplementedError`, or a property. A body that raises any other exception is not modelled.
- The real addresses in the interface model are given. Address assignment by the base layer is not part of this model.

## Findings

| source | as written | input that shows it | evidently intended | confidence | as-written member | corrected member |
|---|---|---|---|---|---|---|
| seedemu/compiler/Docker.py:689 | After the tie-break loop, `_selectImageFor` returns the loop variable `image` of the earlier candidate scan, which is the last catalog image. | Catalog `[a (holds package x), b (empty)]`, node software `[x]`: the only candidate is `a`, but `b` is returned. | Return the image the tie-break selected. | not executed | ImageSelection.SelectReturnsLastImage | ImageSelection.SelectDefault |
| seedemu/compiler/Docker.py:683-687 | The tie-break compares each candidate's priority with `maxPiro` but never updates `maxPiro`. The result is the last candidate at least as high as the first one. | Candidates with priorities 0, 5, 1: priority 1 is chosen. | The highest priority, the latest among equals, as `addImage` documents. | not executed | ImageSelection.TieBreakIgnoresHigherPriority | ImageSelection.TieBreak |
| seedemu/compiler/Docker.py:358-364 | `rebaseImage` binds `tiers` only inside `if self.__packageInstallTiers:`, then uses it unconditionally. An image without tiers, or with an empty tier list, raises `UnboundLocalError`. | A node whose software has no package-manager entries is given no install-tier attribute, so `_compileNode` fails on it. | Carry no tiers over in that case. | not executed | Tiering.NodeWithoutPackagesFailsToCompile | Tiering.NodeWithoutPackagesCompilesCorrected |
| seedemu/services/ReverseDomainNameService.py:13-14 | `ReverseDomainNameServer.softwareDeps` (and the service's, at lines 70-71) is a `@property`. On the class it is a property object, so both `cls.softwareDeps()` and the retry `cls.softwareDeps(cls)` in DockerImageBuilders.py:28-36 raise `TypeError`, and the retry's handler only catches `NotImplementedError`. | The installer hierarchy with `Server` under `NodeSoftwareInstaller` (the excluded `BotnetServer` derives from `Server`) and `ReverseDomainNameServer` under `Server`: the walk reaches it and `get_seedemu_image` raises. | Declare it a `@classmethod` like the other services, so the class adds its empty list. | not executed; that `Server` derives from `NodeSoftwareInstaller` is inferred from the exclusions, as its file is not part of this model | ImageBuilders.ReverseDnsBreaksSeedemuImage | ImageBuilders.SeedemuImageFixed |
