# Models of the Anton indexer's core logic

Anton indexes the TON blockchain. This project models the parts of it that carry protocol, graph, state
or heap reasoning, and proves what they guarantee. Where a promise does not hold of the code, the model
keeps the code as it is, shows an input for which the promise fails, and proves exactly when it holds.

* **Leader election** (`LeaderElection`, `LeaderSafety`, `LeaderRenewal`, `LeaderTightness`,
  `LeaderCallbacks`). Any number of nodes tick against one Redis key with a time to live; every call may be
  answered, applied with its answer lost, or never applied. The elector is a class proved against one step
  function, `Tick`; whole clusters are runs of such steps. One clock is shared, a tick is one atomic step, a
  node ticks at least once every renewal period, and Redis keeps the key.
* **Block id producer** (`Producer`). Workers share a counter and a channel; bumping the counter and
  reading it back are separate steps. The first id issued is the one after `fromBlock`.
* **Unseen shard blocks** (`ShardIds`, `ShardWalk`, `ShardDiff`, `ShardTiling`). The recursive walk through
  the parents of shard blocks, cut at the tops of the previous masterchain block.
* **TL-B schemas** (`TlbTypes`, `TlbSettings`, `TlbTags`, `TlbCompile`, `TlbMeaning`, `TlbRoundTrip`,
  `TlbDescribe`, `Graphs`, `TlbRegistry`, `TlbAgain`, `DefinitionRounds`, `TlbRegister`, `TlbEnds`,
  `TlbSchedule`, `TlbChain`). Tags and formats stand for Go types, schemas compile to struct types, struct
  types are described as schemas, and sets of definitions, under new names or old ones, are registered in
  rounds under any map order.
* **Caches and account history** (`LruSpec`, `Lru`, `MinterSpec`, `MinterCache`, `AccountStates`,
  `RecentStates`, `RecentExact`, `RecentRuns`, `MinterRecency`, `Interfaces`, `InterfaceLog`). The
  linked-list-and-map cache, the cache of minter states built from nested ones, the change log and window
  that fill it, what it holds and answers in any run of calls, and the log of interface changes with the
  choice made from it.
* **Merging messages** (`Messages`, `MessageLaws`, `MessageResults`). Message objects are merged in place by
  hash and looked up in the database when their source was not seen.
* **Rescan** (`RescanWorkers`, `RescanLoop`). Batches for workers, the cursor, and the loop of iterations
  that may fail before or after their updates are written.

Findings about the code, each with its exact condition:

* Mutual exclusion needs `ElectionTimeout + RenewalPeriod < LeaderTTL`, and that EXPIRE reaches the server
  when a follower reclaims its own live key (`LeaderTightness.MutualExclusionExactly`). The check of the
  timings in config.go is never called, and would not imply that condition
  (`LeaderTightness.ConfigurationCheckIsNotEnough`).
* A leader whose calls are answered renews its key and stays leader if and only if
  `RenewalPeriod <= ElectionTimeout` and `RenewalPeriod < LeaderTTL` (`LeaderRenewal.KeepsLeadingExactly`).
* With two or more workers an id can be issued twice and the id before it never
  (`Producer.ExactIffOneWorker`).
* An unseen block is listed once for every way that leads to it from a current shard without meeting a
  previous one (`ShardDiff.MultiplicityIsWays`), so it is listed twice after a split, even if the halves
  have merged again (`ShardDiff.MergeRepeatsToo`); nothing is listed twice if and only if every unseen
  block is reached from one place only (`ShardDiff.NoRepeatsExactly`).
* Registration of acyclic definitions can fail once they are nineteen layers deep
  (`TlbSchedule.RegistrationAlwaysSucceedsExactly`, `TlbChain.ChainAlwaysRegistersExactly`).
* Registering a name again makes compilation diverge if and only if compiling the new definition leads
  back to that name (`TlbAgain.ReRegistrationExactly`, `TlbAgain.ReRegistrationCanLoop`).
* A minter state answered from the cache can be one that was replaced long before
  (`RecentExact.AnswerExactly`, `RecentExact.StaleAnswer`): the last state of a cut window counts as
  lasting forever. The states held of an address are always consecutive changes, so the answer is then the
  last one held (`RecentRuns.AnswerInRuns`).
* The query of interface changes tests the inclusion of the two lists twice in the same direction, so an
  interface that is taken away goes unnoticed unless that happens in the last state
  (`InterfaceLog.LogExactly`). An interface that is held is never missed (`InterfaceLog.NeverTooLittle`).
* The rescan cursor is the greatest id of a batch only when every row after it is smaller in both parts
  (`RescanWorkers.GreatestIsParsedExactly`), and a batch that ends with a state at time 0 makes the task
  start over (`RescanLoop.FinishesExactly`).

## Model

| member | source | states |
|---|---|---|
| LeaderElection.ValidateAcceptsOrdered | internal/leader_election/config.go:40-55 | the configuration is accepted if and only if key and node id are set and 0 < RenewalPeriod < ElectionTimeout < LeaderTTL |
| LeaderElection.LockClient.SetNXCall | internal/leader_election/leaderelection.go:100-104 | SETNX takes the key only when it is free or expired, and an error says nothing about whether it did |
| LeaderElection.LockClient.GetCall | internal/leader_election/leaderelection.go:107-111 | GET answers with the owner of a live key, else with an error |
| LeaderElection.LockClient.ExpireCall | internal/leader_election/leaderelection.go:137-141 | EXPIRE extends a live key, and an error says nothing about whether it did |
| LeaderElection.LeaderElector.RunCallbacks | internal/leader_election/leaderelection.go:150-152 | all callbacks run, in registration order, once for the event |
| LeaderElection.InvocationsInOrder | internal/leader_election/leaderelection.go:150-152 | over a whole log of events every event runs all callbacks once, in registration order, before the next event |
| LeaderElection.LeaderElector.OwnLeadership | internal/leader_election/leaderelection.go:148-153 | becoming leader sets the flag and runs the start callbacks |
| LeaderElection.LeaderElector.LoseLeadership | internal/leader_election/leaderelection.go:156-161 | losing leadership clears the flag and runs the stop callbacks |
| LeaderElection.LeaderElector.TryAcquireLeadership | internal/leader_election/leaderelection.go:91-145 | one tick takes node and key to the state the step function prescribes, whichever calls fail |
| LeaderSafety.KeyHeldStep | internal/leader_election/leaderelection.go:91-161 | one action of any node keeps the invariant that a leader owns a key that outlives its next tick |
| LeaderSafety.KeyHeldInRuns | internal/leader_election/leaderelection.go:79-145 | that invariant holds after every run |
| LeaderSafety.Safety | internal/leader_election/leaderelection.go:79-161 | at the end of every run at most one node leads, and its key is alive until its next tick |
| LeaderSafety.RecentStep | internal/leader_election/leaderelection.go:91-145 | one action keeps the bound on how long ago a leader renewed or took over |
| LeaderSafety.LeadershipNeverStale | internal/leader_election/leaderelection.go:91-161 | in every run, with any calls failing, a leader renewed at most ElectionTimeout + RenewalPeriod ago or took over at most RenewalPeriod ago |
| LeaderSafety.AlternationStep | internal/leader_election/leaderelection.go:147-161 | one action keeps starts and stops alternating |
| LeaderSafety.CallbacksAlternateInRuns | internal/leader_election/leaderelection.go:147-161 | in every run the callbacks of every node alternate, beginning with start |
| LeaderRenewal.GivesUpExactly | internal/leader_election/leaderelection.go:92-127 | a leader gives up at a tick if and only if it never renewed, its last renewal is more than ElectionTimeout ago, or SETNX and GET are answered and another node owns the live key |
| LeaderRenewal.TakesOverExactly | internal/leader_election/leaderelection.go:99-134 | a follower takes over at a tick if and only if SETNX and GET are answered and the key is free, expired or its own |
| LeaderRenewal.RenewsExactly | internal/leader_election/leaderelection.go:136-143 | a tick renews if and only if the node leads after it and all three calls were answered; then the key is its own for LeaderTTL from that moment, and no other node changes |
| LeaderRenewal.LiveKeyStays | internal/leader_election/leaderelection.go:99-141 | no tick of another node changes a live key |
| LeaderRenewal.TendedLeaderStays | internal/leader_election/leaderelection.go:79-145 | over every run, with calls failing and other nodes doing anything, a leader that ticks within ElectionTimeout of its last answered tick, while nobody ticks LeaderTTL after it, still leads, with a key for LeaderTTL from then, and ran no callback |
| LeaderRenewal.KeepsLeadingExactly | internal/leader_election/leaderelection.go:79-145 | with two nodes or more, in every run a leader that just renewed and whose ticks are all answered still leads at the end and ran no callback, if and only if RenewalPeriod <= ElectionTimeout and RenewalPeriod < LeaderTTL |
| LeaderRenewal.AnsweredTickLeads | internal/leader_election/leaderelection.go:99-143 | an answered tick on a free or expired key, or on its own, makes a node a leader that just renewed, unless it is a leader past its timeout |
| LeaderTightness.OutlivedKey | internal/leader_election/leaderelection.go:93-141 | timings with LeaderTTL <= ElectionTimeout + RenewalPeriod have a run with two leaders although EXPIRE is reliable |
| LeaderTightness.UnextendedReclaim | internal/leader_election/leaderelection.go:131-141 | any positive timings have a run with two leaders when EXPIRE fails on a reclaim |
| LeaderTightness.MutualExclusionExactly | internal/leader_election/leaderelection.go:79-161 | for two nodes or more and any positive timings, mutual exclusion holds in every run if and only if EXPIRE is reliable on reclaims and ElectionTimeout + RenewalPeriod < LeaderTTL |
| LeaderTightness.ConfigurationCheckIsNotEnough | internal/leader_election/config.go:50-53 | the default timings are safe; timings 4, 5, 6 would pass the check, which nothing calls, and are not |
| LeaderCallbacks.ProduceUnseenBlocks.OnStartLeading | internal/leader_election/callbacks/unseen.go:44-45 | starting creates a new producer context and remembers how to cancel it; earlier ones are left alone |
| LeaderCallbacks.ProduceUnseenBlocks.OnStopLeading | internal/leader_election/callbacks/unseen.go:52-55 | stopping cancels the remembered context, and only that |
| LeaderCallbacks.AlternationDrivesOneProducer | internal/leader_election/callbacks/unseen.go:20-55 | alternating callbacks never call an unset cancel and leave a live producer exactly while leading |
| LeaderCallbacks.OneProducerInRuns | internal/leader_election/callbacks/unseen.go:20-55 | in every run of every cluster each node has one live producer while it leads and none otherwise |
| Producer.FillChannel | internal/leader_election/callbacks/unseen.go:69-76 | the start-up loop puts fromBlock+1 to fromBlock+Workers into the channel |
| Producer.ConservedStep | internal/leader_election/callbacks/unseen.go:78-101 | every step keeps one token per worker, and every issued id processed, queued or held as often as it was issued |
| Producer.NoIdIsLost | internal/leader_election/callbacks/unseen.go:69-101 | in every interleaving sends never block, no id leaves before it is processed, and the id fromBlock itself is never issued |
| Producer.UndisturbedRunsPartition | internal/leader_election/callbacks/unseen.go:94-96 | when each bump is read before the next, processed, queued and held ids partition fromBlock+1 up to the counter |
| Producer.SkippedAndRepeated | internal/leader_election/callbacks/unseen.go:94-96 | with two workers or more some interleaving issues one id twice and the id before it never |
| Producer.ExactIffOneWorker | internal/leader_election/callbacks/unseen.go:69-101 | every interleaving issues every id exactly once if and only if there is at most one worker |
| ShardIds.ShardIdIdentifies | internal/app/fetcher/block.go:47-49 | the text of a shard is the same for two blocks if and only if workchain and shard are |
| ShardWalk.GetNotSeenBlocks | internal/app/fetcher/block.go:51-82 | the recursive walk terminates and returns the listed blocks, or an error if and only if some block data cannot be fetched |
| ShardWalk.LastSeqNosOf | internal/app/fetcher/block.go:114-117 | the map holds exactly the shards met, each with the number of the last block of that shard |
| ShardWalk.NotSeenBlocks | internal/app/fetcher/block.go:122-128 | the lists of all current shards one after another, or the error of the first that fails |
| ShardWalk.Fetcher.ClearCaches | internal/app/fetcher/cache.go:31-38 | the caches are emptied, and the clearing noted, when the last one was a minute ago or more; else nothing changes |
| ShardWalk.Fetcher.LookupMaster | internal/app/fetcher/block.go:14-26 | the masterchain block of the number, from the cache or the network, and an error if and only if neither has it; a block from the network is cached, unless the caches are cleared at that moment |
| ShardWalk.Fetcher.GetShardsInfo | internal/app/fetcher/block.go:30-45 | the shards of the masterchain block, from the cache or the network; an answer from the network is cached likewise, but an empty one is not, and comes back as no shards and no error |
| ShardWalk.Fetcher.UnseenShards | internal/app/fetcher/block.go:96-131 | whatever the caches hold, the blocks the diff prescribes for the master, and success when everything is answered; unless the caches are cleared on the way, success if and only if what is not cached is answered, and it is cached then |
| ShardWalk.Fetcher.UnseenBlocks | internal/app/fetcher/block.go:85-93 | the master and its diff |
| ShardDiff.TopsAreRecognised | internal/app/fetcher/block.go:54-56 | with one top per shard, the walk stops exactly at the previous tops |
| ShardDiff.UnseenExactly | internal/app/fetcher/block.go:51-131 | listed are exactly the ancestors-or-self of the current tops that are not ancestors-or-self of the previous ones |
| ShardDiff.DiffOrder | internal/app/fetcher/block.go:71-81 | in the list of one shard every block comes after its unseen parents |
| ShardDiff.DiffAllOrder | internal/app/fetcher/block.go:122-128 | the same for the list of all shards |
| ShardDiff.MultiplicityFlow | internal/app/fetcher/block.go:71-81 | a block is listed once for each time it is a current top and once for each parent link that leads to it from a listed block |
| ShardDiff.WaysExactly | internal/app/fetcher/block.go:51-82 | the ways enumerated are exactly the parent paths from the current tops that meet no previous one, as sequences |
| ShardDiff.MultiplicityIsWays | internal/app/fetcher/block.go:51-131 | a block is listed as often as there are such paths to it |
| ShardDiff.ListedExactly | internal/app/fetcher/block.go:51-131 | so a block is listed if and only if there is one, whatever the graph |
| ShardDiff.NoRepeatsIffOneWay | internal/app/fetcher/block.go:51-131 | no block is listed twice if and only if no block is reached by two of them |
| ShardDiff.NoRepeatsExactly | internal/app/fetcher/block.go:71-81 | no block is listed twice if and only if each unseen block is one current top, or has one unseen child with one link to it |
| ShardDiff.SplitRepeatsItsParent | internal/app/fetcher/block.go:122-128 | a shard that splits right after an unseen block lists that block twice |
| ShardDiff.MergeRepeatsToo | internal/app/fetcher/block.go:71-81 | so does a single shard whose halves have merged again |
| ShardTiling.OneDiff | internal/app/fetcher/block.go:96-131 | a diff holds exactly what its master sees and the previous one does not |
| ShardTiling.DiffsCover | internal/app/fetcher/block.go:96-131 | the diffs of consecutive masters together hold exactly what the last sees and the first does not |
| ShardTiling.DiffsDisjoint | internal/app/fetcher/block.go:96-131 | no block is in the diffs of two masters |
| TlbTypes.FormatsInvert | abi/tlb_types.go:144-177 | a type has a format name if and only if that name stands for the type |
| TlbTypes.InitTypeNameRMap | abi/tlb_types.go:173-177 | the reverse table is that inverse, whatever order the table is iterated in |
| TlbTags.IntegerFormats | abi/tlb_types.go:144-171 | the formats of the fixed integer types end in their number of bits |
| TlbTags.WordsOf | abi/tlb.go:149 | the parts of a tag the model works on are the words it is split into |
| TlbTags.TrimmedExactly | abi/tlb.go:144 | trimming takes away all blanks at both ends, and nothing else |
| TlbTags.IntegerTag | abi/tlb.go:80-104 | `## N` stands for the narrowest unsigned type that holds N bits, a big integer up to 256, and for an error above that or if N is no number; without N the program stops |
| TlbTags.DecimalTag | abi/tlb.go:85-103 | so it does for the decimal text of every number |
| TlbTags.PlainTag | abi/tlb.go:145-187 | addr, bool, bits and maybe stand for an address, a boolean, bytes and a cell, whatever follows, and `-` for no type |
| TlbTags.EitherTag | abi/tlb.go:171-175 | either stands for a cell if two words follow it, else for an error |
| TlbTags.ReferenceTag | abi/tlb.go:189-193 | `^` and `.` alone stand for a cell, else for what the words after them stand for |
| TlbTags.DictTag | abi/tlb.go:106-130 | dict, inline or not, stands for a dictionary, or for a map of what the words after the third stand for; a size that is no number is an error, and without one the program stops |
| TlbTags.UnionTag | abi/tlb.go:154-165 | a first word in brackets stands for an interface if every member is registered, else the first member that is not is reported |
| TlbTags.OtherTag | abi/tlb.go:198-200 | any other first word is an error |
| TlbSettings.SettingsDependOnUnionNames | abi/tlb.go:143-201 | a tag's type depends on the registered names only through its union members; a sane tag with a missing member reports one that is missing |
| TlbCompile.ParseDesc | abi/tlb.go:237-272 | the loop compiles the schema as specified, and writes nothing into it but struct formats where sub-fields have none; when all fields compile, it wrote all of those |
| TlbCompile.ParseNth | abi/tlb.go:240-269 | one turn of the loop adds the field specified, or none if it is skipped, or fails as the whole does |
| TlbCompile.ParseField | abi/tlb.go:246-266 | one field gets the type specified, its struct format filled in |
| TlbCompile.MapFormatTo | abi/tlb.go:203-235 | a format gets a built-in type, the default of the tag, or a pointer to, or map of, the definition |
| TlbMeaning.SubFieldsField | abi/tlb.go:246-260 | a field with sub-fields, under the struct format or none, is a pointer to the struct these compile to, or fails as they do |
| TlbMeaning.BuiltinField | abi/tlb.go:204-207 | a built-in format alone decides the type |
| TlbMeaning.DefaultField | abi/tlb.go:210-216 | without format and sub-fields the tag decides, and one without a type is an error |
| TlbMeaning.DefinitionField | abi/tlb.go:218-233 | any other format names a definition: a pointer to the struct that compiles to, or under a tag that starts with dict a map of such pointers; an unregistered one is reported |
| TlbMeaning.MeaningOfBoth | abi/tlb.go:240-271 | the struct has the fields of the parts of a schema, in order, and two fields of one name stop the program |
| TlbMeaning.FirstFailureDecides | abi/tlb.go:256-266 | the first field that fails decides how the schema fails |
| TlbMeaning.SkippingExactly | abi/tlb.go:243-245 | compiling with optional fields skipped is compiling the schema without them, at any depth; definitions are compiled whole |
| TlbRoundTrip.CompiledIsLaid | abi/tlb.go:237-272 | compiled fields have names stable under a change of case and only types the compiler can produce |
| TlbRoundTrip.DescriptionCompiles | abi/tlb.go:35-78 | the description of such fields compiles back to them, in any larger registry |
| TlbRoundTrip.NormalForm | abi/tlb.go:35-78 | compiling, describing and compiling again gives the same type, and describing that gives the same schema |
| TlbRoundTrip.OperationNormalForm | abi/tlb.go:333-372 | the same for operations with their leading tag |
| TlbDescribe.MakeDesc | abi/tlb.go:35-78 | the loop gives the specified description, for an operation without its leading tag |
| TlbDescribe.DescribedExactly | abi/tlb.go:50-72 | a struct type has a description if and only if, at any depth, every field has a type with a format, is a struct or points to one, or is tagged as a union |
| TlbDescribe.CompiledDescribedExactly | abi/tlb.go:50-72 | what a schema compiles to has one if and only if it holds no map, and no union below another word of its tag |
| TlbDescribe.DescriptionKeepsLayout | abi/tlb.go:35-78 | the description of a struct type written by hand compiles to the same layout, with pointers for the structs inside, in any registry with the definitions it names |
| TlbDescribe.OperationKeepsLayout | abi/tlb.go:46-48 | so does that of an operation, of which the leading tag is left out if there is one, and nothing else |
| TlbRoundTrip.FillingChangesNothing | abi/tlb.go:246-248 | writing struct formats into schemas and definitions in place changes no outcome |
| TlbRegistry.Terminates | abi/tlb.go:218-272 | in a closed and well-founded registry the mutual recursion terminates |
| TlbRegistry.SaneMeaning | abi/tlb.go:203-272 | in such a registry a sane schema compiles if and only if what it needs is registered, and otherwise a definition is reported that is indeed missing |
| TlbRegistry.CompiledHasDeps | abi/abi.go:30-34 | what compiles needs nothing unregistered |
| Graphs.AcyclicAgainExactly | abi/abi.go:45 | a graph without cycles stays so when a node gets new links if and only if none of them leads back to it |
| TlbAgain.FreshKeepsGrounded | abi/abi.go:45 | registering such a definition under a fresh name keeps the registry closed and well-founded |
| TlbAgain.RegisteringKeepsGroundedExactly | abi/abi.go:45 | under any name it does so if and only if compiling the definition does not lead back to the name |
| TlbAgain.GroundedExactly | abi/tlb.go:218-228 | in a closed registry of sane definitions all of them compile if and only if it is well-founded |
| TlbAgain.ReRegistrationExactly | abi/abi.go:45 | after a sane definition is registered, again or for the first time, all still compile if and only if it does not lead back to its own name |
| TlbAgain.HarmlessOne | abi/abi.go:28-46 | if no new definition of a registered name leads back to it through old and new ones, none does in any mixture of them either |
| TlbAgain.MutualDefinitionsDiverge | abi/tlb.go:218-228 | two definitions that name each other never finish compiling |
| TlbAgain.ReRegistrationCanLoop | abi/abi.go:45 | registering a name again can lead to that although the new definition compiles |
| TlbRegister.Definitions.RegisterOne | abi/abi.go:30-45 | one definition is compiled, and registered if it gave a struct with fields |
| TlbRegister.Definitions.OnePass | abi/abi.go:28-46 | one loop over the definitions registers and puts off as the pass specification says, in the order met |
| TlbRegister.Definitions.RegisterDefinitions | abi/abi.go:27-69 | registration ends as the rounds prescribe for the orders met, with the registry closed and well-founded |
| TlbEnds.RegistersKeeps | abi/abi.go:27-69 | whatever the definitions, those registered are as given and gave structs with fields, nothing else changes, and registration ends with all of them, or with the unregistered ones named, or with one unregistered that fails for good or has no fields |
| TlbSchedule.RoundIsPass | abi/abi.go:29-46 | for ready definitions a round on schemas is a round on names and needs |
| TlbSchedule.RegistersMeansEnds | abi/abi.go:27-69 | every registration is a schedule of rounds on names |
| TlbSchedule.EndsMeansRegisters | abi/abi.go:27-69 | and every such schedule is a registration |
| TlbSchedule.RegistrationAlwaysSucceedsExactly | abi/abi.go:27-69 | ready definitions register under every order if and only if none needs more than eighteen layers |
| TlbSchedule.RegistrationAlwaysFailsExactly | abi/abi.go:27-69 | they fail under every order if and only if some are on a cycle, need a missing name, or need such definitions |
| TlbChain.ChainAlwaysRegistersExactly | abi/abi.go:48-68 | a chain of n definitions, ready and without a cycle, registers under every order if and only if n is at most 18, and under some order always |
| DefinitionRounds.EveryOrderExactly | abi/abi.go:48-68 | the layer bound on names alone, for every order of every round |
| DefinitionRounds.SomeOrderExactly | abi/abi.go:48-68 | some order succeeds if and only if nothing is stuck |
| Lru.Cache.constructor | lru/cache.go:20-26 | a new cache holds nothing |
| Lru.Cache.RemoveItem | lru/cache.go:28-32 | exactly the least recently touched entry leaves, from list and map; on an empty cache the program stops |
| Lru.Cache.UpdateItem | lru/cache.go:34-38 | a held key gets its new data and becomes the most recent |
| Lru.Cache.Put | lru/cache.go:40-55 | putting refines the recency list: refresh, insert, or evict the last and insert; with a capacity of 0 the first insertion stops the program |
| Lru.Cache.Get | lru/cache.go:57-67 | getting answers with what is held and makes it the most recent |
| Lru.Cache.Keys | lru/cache.go:69-77 | the keys are listed each once, in any order |
| LruSpec.HoldsMostRecent | lru/cache.go:40-67 | after any history the cache holds the most recently touched keys, in that order, as many as fit |
| LruSpec.HeldExactly | lru/cache.go:40-67 | a key is held if and only if it was touched and fewer than capacity other keys were touched since |
| LruSpec.HoldsLastPut | lru/cache.go:40-67 | whatever is held is what was put last under its key |
| MinterSpec.ScanDownFinds | internal/app/rescan/cache.go:58-79 | the scan answers with the latest held state that covers the time asked for, or with nothing if none does |
| MinterSpec.GetStateFinds | internal/app/rescan/cache.go:52-80 | the same for the lookup by address |
| MinterSpec.DescendingIsUnique | internal/app/rescan/cache.go:58-59 | the sorted keys do not depend on the order in which the map yields them |
| MinterRecency.ScanDownTouches | internal/app/rescan/cache.go:61-77 | a get touches exactly the held states from the one that answers, or from the first if none does, up to the time asked for, latest first |
| MinterRecency.HoldsLastCalled | internal/app/rescan/account.go:18-44 | in every run of calls the addresses held are those called last that have changes, most recent first, as many as fit |
| MinterCache.NewMinterStateCache | internal/app/rescan/cache.go:34-38 | a new cache holds nothing |
| MinterCache.PutMinterState | internal/app/rescan/cache.go:40-50 | the nested caches, which share no object, hold what `put` prescribes |
| MinterCache.GetMinterState | internal/app/rescan/cache.go:52-80 | and what `get` prescribes, with its answer |
| MinterCache.ScanOne | internal/app/rescan/cache.go:61-77 | one turn of the loop skips, answers or stops as specified |
| MinterCache.ScanStates | internal/app/rescan/cache.go:58-79 | the loop over the sorted keys touches and answers as specified |
| AccountStates.Deduplicate | internal/core/repository/account/account.go:482-492 | the loop keeps the times of rows that do not repeat the last ones kept |
| AccountStates.ChangesExactly | internal/core/repository/account/account.go:444-492 | query and loop together list, once and in order, exactly the first state with code and data and the states that differ from the one before |
| AccountStates.LatestChangeIsCurrent | internal/core/repository/account/account.go:444-492 | at any time code and data are those of the latest change |
| AccountStates.Window | internal/core/repository/account/account.go:494-511 | the loop cuts the window at the specified bounds |
| AccountStates.WindowReaches | internal/core/repository/account/account.go:494-511 | with a limit of two or more the window holds the latest change at or before the time asked for, among its last `limit` entries |
| AccountStates.WindowExactly | internal/core/repository/account/account.go:494-511 | more times than the limit are cut to exactly the limit: the last ones, those up to the first at or after the time asked for, or the first ones; they are not cut at all if only the very last is at or after it |
| RecentStates.GetAllAccountStates | internal/core/repository/account/account.go:431-528 | the states in the window, or not found when there is no change |
| RecentStates.FillCache | internal/app/rescan/account.go:30-36 | the loop puts each loaded state with the time of the next one, 0 for the last |
| RecentStates.GetRecentAccountState | internal/app/rescan/account.go:18-44 | hit, or miss, load, fill and look up again, over the nested caches |
| RecentExact.SelectExactly | internal/core/repository/account/account.go:513-521 | the states loaded are those at the times in the window, in order |
| RecentExact.AnswerKeepsBuilt | internal/app/rescan/account.go:18-44 | an answer keeps every cached entry an entry of the records |
| RecentExact.RunsBuildFromRecords | internal/app/rescan/account.go:18-44 | so does every run of calls for any addresses |
| RecentExact.MissIsExact | internal/app/rescan/account.go:25-43 | after a miss the answer is the latest change at or before the time asked for, for every prior content built from the records |
| RecentExact.AnswerExactly | internal/app/rescan/account.go:18-44 | the answer is that change if and only if it was held already or the cache had no answer |
| RecentExact.NoAnswerBeforeFirst | internal/app/rescan/account.go:38-41 | before the first change the answer is not found |
| RecentExact.LoadedAnswersAreCurrent | internal/app/rescan/account.go:18-44 | in every run a loaded answer has the code and data current at the time asked for |
| RecentExact.StaleAnswer | internal/app/rescan/account.go:30-36 | with more changes than a window takes, a call at the first change makes a later call answer with a replaced state |
| RecentExact.StepsChange | internal/core/repository/account/account.go:444-492 | histories with any number of changes exist |
| RecentRuns.RunsHoldStretches | internal/app/rescan/account.go:18-44 | in every run of calls the states held of each address are consecutive changes, each with the time of the next one held, the last with none |
| RecentRuns.AnswerInRuns | internal/app/rescan/account.go:18-44 | in every run the answer is the latest change at or before the time asked for, or the last one held if that is earlier |
| Interfaces.Deduplicate | internal/core/repository/account/account.go:416-426 | the loop keeps the changes whose types differ from the last kept |
| Interfaces.LatestUpdate | internal/app/rescan/tx.go:21-27 | the first loop finds the latest time at or before the one asked for, in any map order |
| Interfaces.FirstUpdate | internal/app/rescan/tx.go:32-38 | the second loop finds the first time |
| Interfaces.ChooseInterfaces | internal/app/rescan/tx.go:16-40 | in any map order: the types at the latest time at or before the one asked for, else those at the first time |
| Interfaces.ChosenIsUnique | internal/app/rescan/tx.go:16-40 | that choice is the same for every map order |
| Interfaces.DedupChoosesTheSame | internal/core/repository/account/account.go:416-426 | for every time the deduplicated log leads to the same types as the whole log |
| Interfaces.DedupDoesNotRepeat | internal/core/repository/account/account.go:416-426 | no two consecutive times of the deduplicated log have the same types |
| InterfaceLog.GetAllAccountInterfaces | internal/core/repository/account/account.go:377-429 | every entry is what the account had at that time; the choice from the entries has at least the types in force at every time, and exactly these if and only if no change before the last state is to another, non-empty list of types that were all there before |
| InterfaceLog.LogExactly | internal/core/repository/account/account.go:404-408 | what is chosen from the log at every time are the types in force if and only if there is no such change before the last state |
| InterfaceLog.SilentExactly | internal/core/repository/account/account.go:404-408 | a change goes unreported if and only if the new list is another one, not empty, and all of its types were there before |
| InterfaceLog.NeverTooLittle | internal/core/repository/account/account.go:404-408 | at every time the choice from the log has at least the types in force |
| InterfaceLog.RemovalIsMissed | internal/core/repository/account/account.go:405 | an interface taken away in a state that is not the last still counts |
| Messages.AddMessage | internal/app/indexer/save.go:96-119 | the first object of a hash is kept; a later one hands over its source, or else its destination |
| Messages.GetMessageSource | internal/app/indexer/save.go:121-156 | of a known source the time, shard, block and state are copied and nothing else changes; without one, messages of the masterchain stay and others are skipped |
| Messages.AddMessages | internal/app/indexer/save.go:161-172 | the loops merge all messages of all transactions in order, in place |
| Messages.LookThrough | internal/app/indexer/save.go:174-182 | the loop over the map settles every kept object and lists those not skipped, each once, in any order |
| MessageResults.AllMessagesExactly | internal/app/indexer/save.go:163-172 | what is merged are exactly the incoming and outgoing messages of the transactions |
| MessageResults.ResultsDeliver | internal/app/indexer/save.go:158-185 | any list of the kept objects, in any order, delivers that |
| MessageResults.UniqMessages | internal/app/indexer/save.go:158-185 | for messages as fetched, every message of every transaction has one result of its hash unless it is dropped, which holds the halves seen and, of a source not seen but known, the time, shard, block and state in the database |
| MessageLaws.MergedExactly | internal/app/indexer/save.go:96-119 | a kept object ends with the last source and the last destination seen for its hash; every other object is untouched |
| MessageLaws.RerunChangesNothing | internal/app/indexer/indexer.go:77-91 | merging again after a failed save, over the objects as they were left, changes nothing and gives the same result |
| MessageLaws.MergedJoins | internal/app/indexer/save.go:104-118 | with one source and one destination per hash the merged message has both, and of an unseen half only the workchain |
| MessageLaws.OrderDoesNotMatter | internal/app/indexer/save.go:158-185 | then every order of the messages keeps the same hashes with the same contents |
| MessageLaws.DroppedExactly | internal/app/indexer/save.go:174-179 | dropped are exactly the internal messages with a destination, no source seen or known, and both addresses outside the masterchain |
| RescanWorkers.Cut | internal/app/rescan/rescan.go:256-274 | min(workers, n) consecutive non-empty batches that make up the slice, the first n mod of them one longer; no division by zero |
| RescanWorkers.Collect | internal/app/rescan/rescan.go:276-283 | in any order of completion every update is collected as often as the workers gave it |
| RescanWorkers.SameAsOneWorker | internal/app/rescan/rescan.go:244-283 | workers that treat items one by one together give what one worker would |
| RescanWorkers.RescanStartWorkers | internal/app/rescan/rescan.go:244-293 | the updates are those of the batches together, those of one worker if items are treated one by one, and the last parsed id is the fold over the slice |
| RescanWorkers.GreatestIsParsedExactly | internal/app/rescan/rescan.go:285-290 | the last parsed id is the greatest if and only if every row after it is smaller in both address and time |
| RescanWorkers.ScanFallsBack | internal/app/rescan/rescan.go:287 | rows out of order leave the cursor behind a parsed row |
| RescanLoop.RescanTask.Run | internal/app/rescan/rescan.go:121-213 | an empty batch finishes the task; another one writes the updates its workers gave, those of one worker if rows are treated one by one, and moves the cursor to the last parsed id |
| RescanLoop.Iterate | internal/app/rescan/rescan.go:81-109 | the stored task changes only when nothing failed; the updates are written unless it failed before them |
| RescanLoop.ParsedIsWritten | internal/app/rescan/rescan.go:81-109 | over every run an id is parsed once for each row of an iteration that got as far as writing its updates |
| RescanLoop.BatchExactly | internal/core/repository/account/account.go:363-369 | a batch holds ids after the cursor, and all of them up to any of its own |
| RescanLoop.EveryIdIsParsed | internal/app/rescan/rescan.go:81-213 | in every run, with iterations failing anywhere and rows in any order, a finished task has parsed every matching id |
| RescanLoop.CursorIncreases | internal/app/rescan/rescan.go:209-210 | every iteration that succeeds on a batch moves the cursor strictly forward |
| RescanLoop.CursorBehindNoneExactly | internal/app/rescan/rescan.go:285-290 | the cursor falls behind no row if and only if the rows after the greatest are smaller in both address and time |
| RescanLoop.SortedComesLast | internal/app/rescan/rescan.go:285-290 | as they are when the rows are in order |
| RescanLoop.ExactlyOnceExactly | internal/app/rescan/rescan.go:81-213 | a finished task of which no iteration failed parsed every id exactly once if and only if in each batch the rows after the greatest were smaller in both address and time |
| RescanLoop.FinishesInAnyOrder | internal/app/rescan/rescan.go:81-109 | whatever the order of the rows, as many successful iterations as ids and one more finish the task |
| RescanLoop.FinishesAfterBatches | internal/app/rescan/rescan.go:81-130 | with rows in order it takes exactly the batches, rounded up, and one more, however many iterations fail |
| RescanLoop.FinishesExactly | internal/core/repository/account/account.go:363-365 | with ids at time 0 allowed, it finishes if and only if no batch ends with one |
| RescanLoop.OneIdAtTimeZero | internal/core/repository/account/account.go:363-365 | a single account whose state is at time 0 is such a case |

## Left out

- LeaderTightness.MutualExclusionExactly: ticks are atomic and on one clock; callbacks that take long inside a tick, clock drift and a Redis failover are not modelled.
- LeaderSafety.Safety: requires that the time to live, the election timeout and the renewal period are positive, and nothing else of the timings but the condition proved necessary.
- LeaderElection.LeaderElector.TryAcquireLeadership: logging, and the branch for a nil value, which the client library reports as an error instead.
- Producer.FillChannel: the benchmark switch, cancelled contexts and the 32-bit wrap of the counter are not modelled.
- ShardWalk.Fetcher.UnseenShards: the five-minute timeout and the locks of the caches; block data is a function from a block to its parents.
- ShardDiff.UnseenExactly: requires one previous top per shard, no previous top below another, and every way down from a current top meeting a previous one; so does NoRepeatsExactly. MultiplicityIsWays, ListedExactly and NoRepeatsIffOneWay need the first only.
- TlbRoundTrip.NormalForm: requires that the library's conversions between snake and camel case are stable, as do the laws of `TlbDescribe`; the reflection in NewTLBDesc and the parsing of cells are not modelled.
- TlbCompile.ParseDesc: blanks other than ASCII ones around tags, and field names that are no Go identifiers, are not modelled.
- TlbRegister.Definitions.RegisterDefinitions: requires that no new definition of a registered name leads back to it through old and new definitions together, since otherwise compiling may not return; some orders may be safe without that. Outcomes are data, so a name that happens to contain the words of the missing-definition error is not modelled, nor is the registration of tagged structs with the TL-B library.
- Lru.Cache.Put: locks.
- MinterCache.PutMinterState: the number of addresses is not 0, as in the program, where it is constant; two goroutines using the cache at once are not modelled; a state and the time of the next one are values.
- MinterRecency.HoldsLastCalled: the number of addresses is at least 1, as in the program.
- RecentStates.GetRecentAccountState: requires that both databases hold the same states, each time once; the code and data themselves are loaded by hash and not modelled.
- Interfaces.ChooseInterfaces: the cache of logs per address in front of it is an ordinary use of `Lru.Cache`.
- InterfaceLog.LogExactly: times are positive and below 2^63, and lists come out of the database as lists, not as nil.
- Messages.GetMessageSource: failures of the database other than not-found stop the program; the count of masterchain blocks only changes the log level.
- MessageLaws.OrderDoesNotMatter: requires messages as fetched, with at most one half seen each and only the workchain of the other, and no two different sources or destinations for a hash; so does what `MessageResults.UniqMessages` says of the contents of the results.
- Messages.AddMessage: fields other than the two halves are the same for every object of a hash.
- RescanWorkers.Collect: channels and goroutines are modelled by the order in which batches complete.
- RescanLoop.RescanTask.Run: the kinds of account tasks differ in their queries only; the database returns a state for every id of a batch; tasks on messages use the same cursor with another query, which is not modelled.
- RescanLoop.Iterate: the set of matching states is fixed during a task, and the updates of an iteration are written together or not at all.
- Redis, Kafka, SQL, ClickHouse and liteserver clients, TVM emulation, cell decoding, HTTP, command line and migrations are not part of this model.
