# Dynamic prefix operator: a verified model

The operator keeps Kubernetes objects in step with an IPv6 prefix that the ISP rotates. It writes into lists and
annotations it shares with a human, and derives every entry by 128-bit address arithmetic. This project models that
logic in Dafny and proves what it promises, over every input and over whole runs.

`dafny verify dfyconfig.toml` checks everything.

## What is here

| file | what it models |
|---|---|
| `Powers`, `Bytes`, `Addresses` | powers of two by halving, masks on bytes, addresses and prefixes as numbers, grafting a host part onto a prefix |
| `AddressRange`, `Subnet` | offsets, ranges and CIDRs inside a prefix; carving numbered subnets |
| `ServiceAddresses`, `Derivation`, `Inference` | the borrow and carry loops; the four ways a Service's addresses are derived, and why they agree; what they come to over runs of rotations and missed reconciles |
| `Text`, `Ownership`, `Dedup` | comma-separated lists; the ownership record; lists without repeats |
| `OwnedList`, `PoolBackends`, `ListPools` | the reconcile pass over a list shared with the user, its release, whole runs; the Cilium and MetalLB backends and the geometric fallback; from any run of rotations to bounded lists |
| `Rotation`, `PoolConfigs` | the history of displaced prefixes; the configurations built from it |
| `Calico`, `EndToEnd` | sibling IPPools, with API calls that fail; from any run of rotations to disjoint pools |
| `KubeVip` | many pool keys in one ConfigMap, with the managed key re-pointed at will |
| `ServiceSync`, `ProviderFlips`, `DnsTarget` | the provider address annotations, and whole runs of provider flips; the external-dns target, which follows the address |
| `SharedReceiver` | Router Advertisement receivers shared on a heap and counted by their subscribers |
| `PrefixDelegation` | the DHCPv6 prefix delegation loop |
| `CrowdSec` | allow markers, with a sync in which any call may fail |

Code that changes things step by step is modelled by methods with loops and by classes whose methods update their
fields; each is proved against a specification function, and the properties are proved about those functions. Code
made of expressions is modelled by functions.

How the surroundings appear:

- Text normalisation (netip's parse and print) is a parameter `canon`, assumed idempotent, to keep entries free of
  commas and outer spaces, and to leave alone keys such as `cidr=...` and `a-b` pairs of normalised parts. Parsing is
  a parameter `Netip`. `ServiceSync.Coherent`, where a lemma asks for it, says that normalising a text does not change
  which address it parses to; `PoolBackends.Parses` says so for prefixes too, and that it makes up no dash.
  `ListPools.Spells` is what printing a configuration gives. Sibling names are a parameter, assumed to tell the CIDRs of a run apart.
- An API failure is a call that does not succeed: it leaves the object as it was (`CallFailed`, `Failed`), stops a
  Calico pass at that call, or, for CrowdSec, loses the answer whether or not the call took effect.
- The user is a step that inserts or deletes anything. A record annotation is edited by the operator only.
- DHCPv6 exchanges, the clock and the random draws are parameters of each turn of the loop. The time a Service was
  last synced is a parameter of its write.

## Where the code does less than one might expect

Each of these is proved as an exact condition on the code as it is. The lemma after an "at" gives an input the code can
receive.

- Without a record a pass keeps the user's entries exactly when the geometric fallback claims none of them
  (`OwnedList.PassPreservesUserView`, `ServiceSync.SelectedFieldKept`, `ServiceSync.AbandonedFieldKept`,
  `DnsTarget.TargetKeptIffGrounded`). An address the user put inside a managed prefix beforehand is removed:
  `PoolBackends.UnrecordedEntryIsTaken`.
- A user's entry under another pool key that coincides with an entry a pass writes is recorded as the operator's and
  stripped on a later pass: `KubeVip.MapPassPreserves`, at `KubeVip.CoincidingEntryIsStripped`. The same holds for the
  other provider's field of a Service: `ServiceSync.AbandonedField`, at `ServiceSync.CoincidingAddressIsStripped`.
- A Service pass reports a change for as long as the other provider's field holds anything, although nothing changes:
  `ServiceSync.AddressesSettle`, at `ServiceSync.ChangeReportedForever`.
- With several external-dns keys configured, the user's entries are those of the first key the Service has. An entry
  only under a later key is overwritten by the first pass that moves the target, and no release brings it back:
  `DnsTarget.EntrySurvivesPass`, with the default keys at `DnsTarget.LaterKeyIsOverwritten`.
- Releasing a Service hands back only the alpha external-dns key. With the default keys the published address stays
  under the new-form key, and its record is gone: `ServiceSync.ReleaseOfTargets`, at `DnsTarget.ReleaseStrandsNewKey`.
- Range and subnet mode never move a Service: an assigned address that has left the current prefix is kept, and nothing
  in the new one is asked for, where an inferred suffix would move it. `Inference.NamedModesNeverMove`, at
  `Inference.StaleAddressIsKept`.
- An inferred suffix moves a Service only while history holds the prefix it is on. One that misses more rotations than
  history remembers stays where it is: `Inference.InferenceMovesWithinWindow`.
- Once the history limit is lowered below the recorded history, pools are built from the oldest entries until the next
  rotation: `PoolConfigs.ReadersUseNewestWithinLimit`, at `PoolConfigs.LoweredLimitDrainsOldest`.
- A Cilium block whose only bound is text like `a-b` is identified with the range from a to b, though it denotes
  nothing; while the user has it, the operator does not write that range: `PoolBackends.SameBlock`, at
  `PoolBackends.DashedStartPassesForARange`.
- Expiring a CrowdSec value takes it from every owner: `CrowdSec.OthersSurvive`.
- Restarting a subscription whose entry has left the map can make two receivers run for one key, exactly when the entry
  is not the map's: `SharedReceiver.CurrentUnlessRearmed`, at `SharedReceiver.RestartAfterEviction`.
- Four fifths of a lifetime above 2 305 843 009 seconds, the infinite lifetime included, overflows 64 bits of
  nanoseconds, so the default rebind time is already past and the first failed renewal goes straight to a rebind:
  `PrefixDelegation.DefaultRebindTime`.

## Model

| member | source | states |
|---|---|---|
| AddressRange.ParseOffsetSuffix | internal/prefix/addressrange.go:102-143 | the byte loop with its boundary mask yields the top n bits of the prefix plus the suffix mod 2^(128-n), for every length 0 to 128; malformed and IPv4 suffixes are errors |
| AddressRange.CalculateAddressRange | internal/prefix/addressrange.go:68-98 | succeeds exactly for two IPv6 suffixes whose host parts are in order, and then runs from base + start mod size to base + end mod size; which error each other input gets; the containment checks never fire |
| AddressRange.RangeInside | internal/prefix/addressrange.go:68-98 | every address of a calculated range lies inside its prefix |
| AddressRange.RangeToCIDR | internal/prefix/addressrange.go:148-180 | the byte and bit loops compute the CIDR spanned by the two addresses |
| AddressRange.SpanningCIDRIsLeast | internal/prefix/addressrange.go:148-180 | that CIDR holds both ends, and any prefix holds both ends exactly when it contains the whole CIDR |
| AddressRange.ExactCIDRForAddressRange | internal/controller/poolsync_backends.go:585-611 | exactly when each error comes; else a CIDR, flagged if and only if some CIDR is the range |
| AddressRange.ExactMeansDenoted | internal/controller/poolsync_backends.go:585-611 | the flag is set exactly when some CIDR's address set is the range, and then the returned CIDR is it |
| AddressRange.LastAddrMeaning | internal/controller/poolsync_backends.go:687-702 | setting the host bits of the base gives the last address, base + size - 1, without overflow |
| AddressRange.RangeRoundTrip | internal/controller/kubevip_backend.go:104-125 | rendering a CIDR as first-last and converting back returns that CIDR, reported exact |
| Addresses.CombineInside | internal/controller/servicesync_controller.go:1137-1157 | a grafted address lies in the prefix and keeps the suffix's host part |
| Addresses.CombineIsModulo | internal/controller/servicesync_controller.go:1137-1157 | grafting is the prefix address with its host part divided away, plus the suffix modulo the prefix size |
| Addresses.EqualLengthDisjoint | internal/controller/poolsync_backends.go:302-320 | prefixes of one length are disjoint exactly when they differ once masked |
| Subnet.SubnetFits | internal/prefix/subnet.go:69-134 | an in-range subnet starts on its own boundary, inside the base, and fits sixteen bytes |
| Subnet.SubnetIsBlock | internal/prefix/subnet.go:69-134 | masking the result changes nothing and the subnet is a subset of the base |
| Subnet.Partition | internal/prefix/subnet.go:69-134 | each address of the base lies in the subnet with its own index and in no other, and that index is a valid offset |
| Subnet.Covered | internal/prefix/subnet.go:69-134 | every address whose index fits the offset type is in some subnet |
| Subnet.SubnetsDisjoint | internal/prefix/subnet.go:69-134 | different offsets give disjoint subnets |
| Subnet.ValidationIsCalculation | internal/prefix/subnet.go:137-153 | validation succeeds exactly for in-range offsets and otherwise fails with the calculation's own error, which is the one the lengths or the offset deserve |
| Subnet.CalculateSubnets | internal/prefix/subnet.go:50-66 | all subnets in order, or the error of the first configuration that fails |
| ServiceAddresses.CombinePrefixSuffix | internal/controller/servicesync_controller.go:1137-1157 | a second, different byte loop computes the same grafting as the range code, from unmasked prefixes too |
| ServiceAddresses.CalculateIPOffset | internal/controller/servicesync_controller.go:1332-1351 | the borrow loop is 128-bit subtraction; the flag is set exactly when the target is not below the base |
| ServiceAddresses.ApplyIPOffset | internal/controller/servicesync_controller.go:1355-1367 | the carry loop is 128-bit addition; the flag is set exactly when it does not overflow |
| ServiceAddresses.OffsetAddressWithin | internal/controller/servicesync_controller.go:1376-1385 | succeeds exactly when base + offset is at most the last address |
| ServiceAddresses.OffsetRoundTrip | internal/controller/servicesync_controller.go:1332-1367 | applying a computed offset to its base returns the target |
| Derivation.AnswersExactly | internal/controller/servicesync_controller.go:954-1321 | a mode answers if and only if its range or subnet exists in the current prefix and starts no later than the address, or a managed prefix of the window holds the address; range and subnet mode keep it |
| Derivation.GraftEach | internal/controller/servicesync_controller.go:1085-1132 | each readable prefix of the window gets base + suffix mod size, in order; an unreadable one is skipped |
| Derivation.ShiftEachRange | internal/controller/servicesync_controller.go:1160-1239 | each readable prefix whose range exists and reaches the distance gets the address that far from the range's start, and no other does |
| Derivation.ShiftEachSubnet | internal/controller/servicesync_controller.go:1242-1321 | the same for subnets |
| Derivation.CalculateSuffixIPs | internal/controller/servicesync_controller.go:1085-1132 | the suffix grafted on the current prefix and on each readable one of the history window, in order |
| Derivation.CalculateInferredSuffixIPs | internal/controller/servicesync_controller.go:1034-1080 | the assigned address is used as the suffix exactly when a managed prefix of the window holds it |
| Derivation.CalculateAddressRangeIPs | internal/controller/servicesync_controller.go:1160-1239 | the assigned address, then the address at the same distance into each historical range that reaches it |
| Derivation.CalculateSubnetIPs | internal/controller/servicesync_controller.go:1242-1321 | the same for subnets |
| Derivation.CalculateServiceIPs | internal/controller/servicesync_controller.go:954-1027 | the selected mode's addresses, or just the assigned one where it has none |
| Derivation.ModesAgree | internal/controller/servicesync_controller.go:954-1321 | for equally long prefixes and an address the mode names, inferred suffix, range and subnet mode all give histBase + (addr - currentBase) |
| Derivation.SuffixModeAgrees | internal/controller/servicesync_controller.go:1085-1132 | suffix mode gives those addresses too, exactly when the suffix ends in the address's host part |
| Inference.InferenceMovesWithinWindow | internal/controller/servicesync_controller.go:1034-1080 | after any run of equally long prefixes inference moves a Service into the current one exactly when the prefix that holds its address is current or among the k most recently displaced; otherwise it asks for the address it has and nothing else |
| Inference.HeldFollowsHome | internal/controller/servicesync_controller.go:1034-1080 | over any run of rotations, with reconciles missed at will, the address held is the first one's host part in the prefix the Service is on |
| Inference.NoDrift | internal/controller/servicesync_controller.go:1034-1080 | reconciled after every rotation, through the guard and the history each time, a Service is on the current prefix with its first host part |
| Inference.ReturningRestores | internal/controller/servicesync_controller.go:1034-1080 | whatever was rotated through or missed, the address is the first one again if and only if the Service is on its first prefix |
| Inference.NamedModesNeverMove | internal/controller/servicesync_controller.go:1160-1321 | range and subnet mode keep the assigned address as current, and with equally long distinct prefixes ask for an address of the current one if and only if they hold one already, also where they fall back |
| Inference.NamedModesStayBehind | internal/controller/servicesync_controller.go:1160-1321 | so after any run such a Service asks for nothing in the current prefix unless it is on it |
| Inference.StaleAddressIsKept | internal/controller/servicesync_controller.go:1160-1321 | one rotation between any two prefixes of length 56 and a range in both: everything asked for lies outside the new prefix, where inference would move |
| Text.TrimSplits | internal/controller/ownership.go:120-131 | trimming takes white space off the two ends, all of it and nothing else |
| Text.TrimAround | internal/controller/ownership.go:120-131 | whatever stands between white space is what trimming leaves |
| Text.EntriesOfPadded | internal/controller/kubevip_backend.go:143-158 | a list of entries with any white space around them reads back as those entries, in order |
| Text.BlankPartsAreSkipped | internal/controller/kubevip_backend.go:143-158 | a blank part changes nothing, wherever it stands |
| Ownership.ParseOwnershipRecord | internal/controller/ownership.go:120-131 | an absent annotation is no record; otherwise the normalised non-blank parts |
| Ownership.RecordOfPadded | internal/controller/ownership.go:120-131 | with any white space around its parts a record names exactly their normal forms; only a missing annotation is no record |
| Ownership.RecordRoundTrip | internal/controller/ownership.go:120-162 | reading a formatted record back yields exactly the keys written, the empty list included, and owns exactly their spellings |
| Ownership.ExcludePinned | internal/controller/ownership.go:267-283 | drops the candidates whose identity the user already has |
| Ownership.UnpinnedMeaning | internal/controller/ownership.go:267-283 | what is left is wanted and not pinned, and nothing wanted and not pinned is lost |
| Ownership.UnpinnedInOrder | internal/controller/ownership.go:267-283 | a list is judged part by part, in order |
| Ownership.DedupePreservingOrder | internal/controller/ownership.go:289-301 | keeps first occurrences by identity |
| Ownership.DedupedMeaning | internal/controller/ownership.go:289-301 | the identities stay the same and none repeats |
| Ownership.DedupedInOrder | internal/controller/ownership.go:289-301 | what is left stands in its old order and is exactly the first entry of each identity |
| OwnedList.Pool.SyncOwnedList | internal/controller/ownedlist.go:82-153 | the list becomes the kept entries and then the chosen ones, the record names the chosen; written exactly when either changes; other annotations untouched |
| OwnedList.Pool.ReleaseRecordedSlice | internal/controller/poolsync_backends.go:72-104 | removes exactly the recorded entries and the record; nothing without one |
| OwnedList.SyncedRecord | internal/controller/ownedlist.go:96-136 | the record a pass writes names exactly the desired keys the user has not pinned |
| OwnedList.ChosenInOrder | internal/controller/ownedlist.go:107-131 | the entries written are, in the order of the wishes, exactly the first wish of each unpinned identity |
| OwnedList.PassLayout | internal/controller/ownedlist.go:82-141 | the user's entries stand first, then the written ones, all recorded |
| OwnedList.PassPreservesUserView | internal/controller/ownedlist.go:82-141 | the user's entries stay, in order and with multiplicity, if and only if there is a record or the fallback claims nothing |
| OwnedList.Settles | internal/controller/ownedlist.go:133-141 | a second pass with the same wishes writes nothing, whatever the first started from |
| OwnedList.Bounded | internal/controller/ownedlist.go:96-136 | the list never exceeds the user's entries plus the distinct desired keys |
| OwnedList.Served | internal/controller/ownedlist.go:107-131 | every desired key is in the list after a pass, from the operator or from a pin |
| OwnedList.StepMatchesShadow | internal/controller/ownedlist.go:82-153 | a pass, edit, release or failed call does to the user's entries exactly what the user did, if and only if the step is fair |
| OwnedList.NonInterference | internal/controller/ownedlist.go:82-153 | for any fair interleaving of passes, insertions, deletions, failures and releases, a release leaves the list the user's edits alone would have made |
| OwnedList.RunCount | internal/controller/ownedlist.go:82-153 | over any fair run the operator's entries number at most the most any one pass wished for |
| OwnedList.NothingLeftBehind | internal/controller/ownedlist.go:96-136 | after a pass every entry is the user's or has a key this pass wished for |
| PoolBackends.BackendsAreGood | internal/controller/poolsync_backends.go:107-195 | the keys of all three list backends are normalised |
| PoolBackends.WishesWellKeyed | internal/controller/poolsync_controller.go:650-714 | every key computed for a configuration is the written entry's own and survives the record |
| PoolBackends.AddressIdentity | internal/controller/poolsync_backends.go:255-275 | two spellings are one address entry if and only if both are pairs or neither is and their parts normalise alike |
| PoolBackends.SameAddressEntry | internal/controller/poolsync_backends.go:255-275 | one identity denotes one set of addresses |
| PoolBackends.SameBlock | internal/controller/ownership.go:163-184 | so does a block's, unless a bound hides a dash |
| PoolBackends.DashedStartPassesForARange | internal/controller/ownership.go:163-184 | a block whose only bound is spelled like a pair shares the identity of that pair |
| PoolBackends.BlockFallback | internal/controller/poolsync_controller.go:762-799 | without a record a block is claimed if and only if every address it denotes lies in one managed prefix |
| PoolBackends.AddressFallback | internal/controller/poolsync_backends.go:613-685 | the same for MetalLB and kube-vip texts: CIDR, start-end range or single address |
| PoolBackends.CidrFallback | internal/controller/ownership.go:203-231 | the same for CIDR group entries; a supernet is never claimed |
| PoolBackends.UnrecordedEntryIsTaken | internal/controller/ownership.go:203-231 | without a record, a user's address inside a managed prefix is removed by a pass that wants nothing |
| ListPools.WrittenDenotes | internal/controller/poolsync_backends.go:107-275 | the block and the address entry written for a configuration denote exactly its addresses |
| ListPools.WrittenCIDR | internal/controller/poolsync_backends.go:160-195 | the CIDR group entry denotes the least prefix that holds them |
| ListPools.ListPoolBounded | internal/controller/ownedlist.go:82-153 | from any run of rotations, passes, edits, failures and releases to the pool: the user's list as the user made it, and at most k + 1 operator entries |
| ListPools.NoEntryOutlivesItsPrefix | internal/controller/ownedlist.go:96-136 | right after a pass each entry is the user's or wished for by the current window: nothing of a prefix that aged out stays |
| ListPools.ListPoolHolds | internal/controller/ownedlist.go:82-153 | end to end, after any fair run: a pass leaves a list that holds every address the mode names in a prefix in use, and every entry that is not the user's holds exactly what it names in one of them |
| ListPools.AddressesRecognised | internal/controller/poolsync_backends.go:198-275 | a MetalLB list always meets the condition of that: what is identified as a configuration denotes it |
| ListPools.BlocksRecognised | internal/controller/ownership.go:163-199 | a Cilium list does unless the user has a block whose bound hides a dash |
| Rotation.DynamicPrefix.HandlePrefixChange | internal/controller/dynamicprefix_controller.go:661-724 | history without the two prefixes, the outgoing one appended as draining, the oldest beyond the limit dropped and returned; no other entry is altered |
| Rotation.DynamicPrefix.Reconcile | internal/controller/dynamicprefix_controller.go:200-262 | accepts a received prefix the policy passes; otherwise status keeps what it has |
| Rotation.HistoryIsRecentWindow | internal/controller/dynamicprefix_controller.go:688-715 | after any trace history is exactly the k most recently displaced distinct prefixes other than the current one, oldest first |
| Rotation.WindowInvariant | internal/controller/dynamicprefix_controller.go:688-715 | no repeats, never the current prefix, never over the limit, empty while no prefix is held |
| Rotation.RotationTrims | internal/controller/dynamicprefix_controller.go:688-715 | one rotation after the limit is lowered, status is what it would be had the lower limit always held |
| PoolConfigs.BuildPoolConfigurations | internal/controller/poolsync_controller.go:397-527 | first what status resolved or exactly the addresses the mode names in the current prefix, an error if and only if there is neither; then, in order, exactly what it names in each draining prefix of the window where it names anything |
| PoolConfigs.CalculateMeaning | internal/controller/poolsync_controller.go:590-643 | what is calculated denotes, for every address: the whole prefix, or those between base + start mod size and base + end mod size, or those of the subnet from base + offset * 2^(128-L); and something is calculated if and only if the spec is there, in order or in range |
| PoolConfigs.ConfigInsidePrefix | internal/controller/poolsync_controller.go:590-643 | no configuration reaches outside its prefix |
| PoolConfigs.CollectManagedPrefixes | internal/controller/poolsync_controller.go:803-816 | exactly the readable ones of the current and all historical prefixes, in order |
| PoolConfigs.WrittenIsManaged | internal/controller/poolsync_controller.go:397-527 | everything a pass calculates lies inside one of the current and historical prefixes, so the fallback would recognise it |
| PoolConfigs.CalculatesTogether | internal/controller/poolsync_controller.go:590-643 | equally long prefixes all have a configuration or none has |
| PoolConfigs.ReadersUseNewestWithinLimit | internal/controller/poolsync_controller.go:464-467 | with the limit edited after any trace, readers use the newest displaced prefixes if and only if the recorded history fits the new limit, and the oldest otherwise; a raised limit gives what was kept |
| PoolConfigs.RotationRestoresReaders | internal/controller/poolsync_controller.go:464-467 | the next accepted rotation under the lower limit makes readers use the newest again, and all that status keeps |
| PoolConfigs.LoweredLimitDrainsOldest | internal/controller/poolsync_controller.go:464-467 | three prefixes and a limit lowered to one: the first is drained for, not the second |
| PoolConfigs.ConfigsBound | internal/controller/poolsync_controller.go:397-527 | a pass works from at most k + 1 configurations, whatever the trace |
| Calico.CalicoCIDRForConfig | internal/controller/poolsync_backends.go:566-583 | succeeds if and only if some CIDR's address set is the configuration's, and returns that CIDR, the only one up to masking |
| Calico.Cluster.SyncDrainingSiblings | internal/controller/poolsync_backends.go:402-479 | success leaves exactly the expected siblings and every other pool as it was; stopped at any call, nothing is deleted before all expected siblings are in place |
| Calico.Cluster.Update | internal/controller/poolsync_backends.go:302-356 | success also writes the parent's CIDR and record, only if they are not right already; an inexpressible current configuration changes nothing |
| Calico.Cluster.Release | internal/controller/poolsync_backends.go:366-391 | no labelled sibling is left, the record goes, the CIDR stays |
| Calico.SyncedSiblings | internal/controller/poolsync_backends.go:402-479 | with its names free, a pass leaves exactly the expected siblings labelled, each with its CIDR |
| EndToEnd.UsableMeaning | internal/controller/poolsync_backends.go:566-611 | a prefix is usable if and only if some CIDR holds exactly the addresses the mode names there |
| EndToEnd.ExactnessTranslates | internal/controller/poolsync_backends.go:566-611 | a range that is exactly a CIDR in one prefix is one in every equally long prefix |
| EndToEnd.UsableTogether | internal/controller/poolsync_backends.go:302-320 | if one prefix of a run can be written as a CIDR, all can |
| EndToEnd.CIDRsApart | internal/controller/poolsync_controller.go:590-643 | different prefixes of a run never share an address through their CIDRs |
| EndToEnd.RotationSafety | internal/controller/poolsync_backends.go:302-479 | after any run of rotations, flaps included, a successful pass leaves the parent on the current CIDR, one labelled sibling per prefix of the window, each holding exactly the addresses the mode names in its prefix, all pairwise disjoint |
| EndToEnd.SyncPool | internal/controller/poolsync_backends.go:302-479 | configurations and then the backend: every way a pass can end is one of the outcomes a run is made of, and success is the complete update |
| EndToEnd.RunKeepsClean | internal/controller/poolsync_backends.go:402-479 | however the passes of a run end, the cluster stays one the next pass may assume |
| EndToEnd.RunSafety | internal/controller/poolsync_backends.go:302-479 | the same safety after any run of rotations and passes, including passes that failed at any call |
| KubeVip.PoolKeyMeaning | internal/controller/kubevip_backend.go:47-49 | a pool key is cidr or range, a dash and a tail |
| KubeVip.KeyForMeaning | internal/controller/kubevip_backend.go:68-86 | the annotation names its key whatever white space is around it, and none if it is no pool key |
| KubeVip.EntryDenotesConfig | internal/controller/kubevip_backend.go:104-141 | whatever form the key takes, an entry denotes exactly its configuration's addresses |
| KubeVip.RenderingFails | internal/controller/kubevip_backend.go:104-141 | rendering fails if and only if the key wants a CIDR and no CIDR denotes the configuration |
| KubeVip.KubevipEntriesFor | internal/controller/kubevip_backend.go:88-102 | the entries of all configurations in order, or none if one cannot be rendered |
| KubeVip.EntriesForMeaning | internal/controller/kubevip_backend.go:88-141 | one entry per configuration, in order, in the form the key takes and denoting exactly its addresses; or none, if and only if the key wants CIDRs and none denotes one of them |
| KubeVip.StripOwnedEntries | internal/controller/kubevip_backend.go:296-307 | keeps exactly the unrecorded entries and reports whether any went |
| KubeVip.ConfigMap.Update | internal/controller/kubevip_backend.go:160-254 | sweeps the other pool keys, rewrites the named one, records what it wrote; written exactly when something changes; nothing on an unusable key or rendering |
| KubeVip.ConfigMap.Release | internal/controller/kubevip_backend.go:256-292 | sweeps every pool key and drops the record |
| KubeVip.PassedEntries | internal/controller/kubevip_backend.go:198-237 | the named key holds the preserved and then the managed entries, every other pool key the user's, everything else what it held |
| KubeVip.ManagedOnce | internal/controller/kubevip_backend.go:214-216 | no managed entry is written twice |
| KubeVip.MapPassPreserves | internal/controller/kubevip_backend.go:188-237 | the user's entries under every key stay if and only if there is a record or no claim, and no user entry elsewhere coincides with a written one |
| KubeVip.OperatorPlaced | internal/controller/kubevip_backend.go:216-231 | operator entries live only under the named key, if and only if nothing coincides |
| KubeVip.NoKeyIsEmptied | internal/controller/kubevip_backend.go:312-318 | a pool key without entries was so before and was not written: an emptied key is deleted |
| KubeVip.MapSettles | internal/controller/kubevip_backend.go:239-243 | a second pass writes nothing, if and only if nothing coincides |
| KubeVip.ClearedEntries | internal/controller/kubevip_backend.go:256-292 | a release leaves every pool key exactly the user's entries and other keys untouched |
| KubeVip.MapStepMatchesShadow | internal/controller/kubevip_backend.go:160-292 | each step does to every key what the user did to it, if and only if it is fair |
| KubeVip.MapNonInterference | internal/controller/kubevip_backend.go:160-292 | for any fair run with the key re-pointed at will, a release leaves every pool key the list the user's edits alone would have made |
| KubeVip.CoincidingEntryIsStripped | internal/controller/kubevip_backend.go:188-237 | a user's entry under another key, wanted once under the managed key, is gone after the next pass |
| ServiceSync.FieldMeaning | internal/controller/servicesync_controller.go:592-602 | which field a provider name selects, whatever white space is around it |
| ServiceSync.ManagedIPMeaning | internal/controller/servicesync_controller.go:895-930 | the prefix test holds exactly for IPv6 addresses from a managed prefix's base up to its size beyond |
| ServiceSync.PreserveUnownedIPs | internal/controller/servicesync_controller.go:863-881 | the entries the record does not own, or without one those the prefix test does not claim |
| ServiceSync.ExtractUnmanagedIPs | internal/controller/servicesync_controller.go:895-930 | hostnames, IPv4 and IPv6 outside the managed prefixes, in order |
| ServiceSync.WriteLBAddresses | internal/controller/servicesync_controller.go:556-581 | writes the selected field, takes the operator's entries out of the other, and when it reports a change |
| ServiceSync.SyncAddresses | internal/controller/servicesync_controller.go:315-344 | both fields and the record after a pass |
| ServiceSync.PassedIPRecord | internal/controller/servicesync_controller.go:341-344 | the record names exactly what was claimed; an empty claim does not create one |
| ServiceSync.SelectedField | internal/controller/servicesync_controller.go:315-344 | the selected field holds as the user's what was preserved, in order without repeats, and its operator addresses are exactly the recorded ones |
| ServiceSync.SelectedFieldKept | internal/controller/servicesync_controller.go:315-344 | the user keeps the selected field, in order and up to repeats, if and only if there is a record or the fallback claims nothing there |
| ServiceSync.AbandonedField | internal/controller/servicesync_controller.go:569-580 | the other field holds exactly what was preserved there, all of it the user's if and only if none coincides with a claim |
| ServiceSync.AbandonedFieldKept | internal/controller/servicesync_controller.go:569-580 | the user keeps the other field, in order and up to repeats, if and only if there is a record or the fallback claims nothing there, and nothing coincides |
| ServiceSync.AddressesSettle | internal/controller/servicesync_controller.go:315-351 | a second pass changes nothing if and only if nothing coincides, and reports a change if and only if anything was preserved in the other field |
| ServiceSync.CoincidingAddressIsStripped | internal/controller/servicesync_controller.go:569-580 | the calculated address is the user's entry for the other provider: the next pass strips the user's |
| ServiceSync.ChangeReportedForever | internal/controller/servicesync_controller.go:556-581 | a user's entry for the other provider makes a settled Service report a change |
| ProviderFlips.LBStepMatchesShadow | internal/controller/servicesync_controller.go:315-351 | a pass, insertion, removal, release or failed write does to each field's user entries what the user did, in order and up to repeats, if and only if it is fair: for a pass, that there is a record or the fallback claims nothing in either field, and nothing coincides |
| ProviderFlips.FlipsKeepUserEntries | internal/controller/servicesync_controller.go:315-351 | across any fair run of passes, provider flips, edits, failures and releases each field keeps exactly the user's entries, in order and up to repeats |
| ServiceSync.Service.ReleaseService | internal/controller/servicesync_controller.go:739-801 | the annotations after a release, in one write, or none without a record |
| ServiceSync.ReleaseRestoresFields | internal/controller/servicesync_controller.go:757-776 | both provider fields hold exactly the user's entries, no record is left, and annotations that are not the operator's stay |
| ServiceSync.ReleaseOfTargets | internal/controller/servicesync_controller.go:775-777 | every external-dns key is handed back if and only if the new-form key held nothing recorded |
| DnsTarget.SyncExternalDNSTarget | internal/controller/servicesync_controller.go:416-550 | the target, its record and the withheld flag, for publishing and for opting out |
| DnsTarget.FirstAnnotationValue | internal/controller/servicesync_controller.go:1508-1515 | the value of the first configured key present, wherever it stands among them; blank when none is |
| DnsTarget.TargetFollowsAddress | internal/controller/servicesync_controller.go:484-512 | a configured key changes only to the final target and only when the address is assigned or none is; the record moves in the same write and not otherwise |
| DnsTarget.PassShows | internal/controller/servicesync_controller.go:447-512 | a pass leaves the user's entries of the first configured key present and the current address once it may move, and until then what was published before |
| DnsTarget.TargetKeptIffGrounded | internal/controller/servicesync_controller.go:447-461 | a pass that may move the target keeps those entries if and only if there is a record or the fallback claims none of them |
| DnsTarget.EntrySurvivesPass | internal/controller/servicesync_controller.go:484-512 | an identity under any configured key outlives a pass if and only if the target does not move, the first key present preserves it, or it is the current address |
| DnsTarget.LaterKeyIsOverwritten | internal/controller/servicesync_controller.go:492-495 | with the default keys, a user's entry under the new-form key only is gone after the first publication and after a release |
| DnsTarget.ReconcileIsTargetStep | internal/controller/servicesync_controller.go:315-371 | a whole reconcile, address part, target and stamp, is one step of the target's run |
| DnsTarget.FreshServiceShows | internal/controller/servicesync_controller.go:447-461 | a Service without a target is a state such a run may start from |
| DnsTarget.DnsFollowsAddress | internal/controller/servicesync_controller.go:447-512 | after any run of such steps the target is the user's entries, as the first configured key present lists them, and the current address of the last pass at which status listed it or listed none |
| DnsTarget.AtMostOneOperatorAddress | internal/controller/servicesync_controller.go:458-512 | the target holds the user's entries and at most one operator address, the published one, and one exactly when the user does not have it |
| DnsTarget.OptOutRestores | internal/controller/servicesync_controller.go:513-547 | opting out leaves every known key exactly the user's entries, and no record |
| DnsTarget.DeconfiguredKeyReleased | internal/controller/servicesync_controller.go:428-447 | a key no longer configured keeps only the user's entries |
| DnsTarget.ReleaseStrandsNewKey | internal/controller/servicesync_controller.go:775-777 | with the new-form key configured a release leaves the published address there, unrecorded, unless the user had it |
| DnsTarget.SyncService | internal/controller/servicesync_controller.go:291-371 | both parts in one stamped write, made if and only if a part reports a change, which is a step of the target's run unless opted out; an empty calculation or an unknown provider writes nothing |
| DnsTarget.SyncTouchesOnly | internal/controller/servicesync_controller.go:315-371 | a reconcile leaves every annotation alone but the address fields, the target keys and their records |
| DnsTarget.TargetSettles | internal/controller/servicesync_controller.go:416-512 | once the target may move, a second pass reports a change if and only if the Service still carries a key no longer configured |
| SharedReceiver.Pool.Subscribe | internal/prefix/shared_ra_receiver.go:50-73 | a subscription to the key's entry, made if missing; nothing starts |
| SharedReceiver.Entry.AddSubscriber | internal/prefix/shared_ra_receiver.go:113-137 | the first subscriber starts the receiver, and a failing start adds nobody |
| SharedReceiver.Pool.Unsubscribe | internal/prefix/shared_ra_receiver.go:75-99 | the last subscriber out stops the receiver and gives up the map slot only if it is its own |
| SharedReceiver.Subscription.Start | internal/prefix/shared_ra_receiver.go:210-226 | starting keeps the pool valid, and keeps running entries the map's if and only if it fails or its entry is the map's |
| SharedReceiver.Subscription.Stop | internal/prefix/shared_ra_receiver.go:228-238 | stopping keeps the pool valid and evicts no other entry's slot |
| SharedReceiver.Pool.AllStoppedNoneRuns | internal/prefix/shared_ra_receiver.go:75-170 | once every subscription is stopped, no receiver runs |
| SharedReceiver.AnyRun | internal/prefix/shared_ra_receiver.go:50-238 | any sequence of subscriptions, starts and stops leaves a valid pool that is the one the operations prescribe: one subscription per request under its key, the same entries, slots and started flags, and each operation succeeds exactly as prescribed |
| SharedReceiver.StopAll | internal/prefix/shared_ra_receiver.go:75-170 | stopping everything, from any valid pool, leaves nothing running |
| SharedReceiver.CurrentMeansCurrent | internal/prefix/shared_ra_receiver.go:50-238 | the pool runs only entries its map holds if and only if the prescribed one does |
| SharedReceiver.CurrentUnlessRearmed | internal/prefix/shared_ra_receiver.go:50-238 | at every point of a run only the map's entries run, if and only if no operation starts a subscription whose entry has lost its slot |
| SharedReceiver.OneRunningEntryPerKey | internal/prefix/shared_ra_receiver.go:50-73 | then no two receivers run for one key |
| SharedReceiver.RestartAfterEviction | internal/prefix/shared_ra_receiver.go:75-99 | a restarted evicted subscription and its replacement run two receivers for one key |
| PrefixDelegation.JitterStaysPositive | internal/prefix/dhcpv6pd_receiver.go:231-241 | a jittered delay is positive and within a fifth of the delay |
| PrefixDelegation.BackoffIsCappedDoubling | internal/prefix/dhcpv6pd_receiver.go:222-227 | after k failures the delay is min(max, min * 2^k), inside 64 bits |
| PrefixDelegation.PaceIsCappedDoubling | internal/prefix/dhcpv6pd_receiver.go:248-324 | at any point of any run the pace is that delay for the failures in a row so far |
| PrefixDelegation.DefaultPace | internal/prefix/dhcpv6pd_receiver.go:205-227 | with the default bounds the ceiling is reached exactly from the fifth failure on |
| PrefixDelegation.DefaultRebindTime | internal/prefix/dhcpv6pd_receiver.go:727-735 | the default rebind time is four fifths of the lifetime if and only if four times the lifetime fits 64 bits; otherwise it is negative |
| PrefixDelegation.RetryWindow | internal/prefix/dhcpv6pd_receiver.go:727-735 | with both timers defaulted, renewal comes before rebinding if and only if the lifetime is within that bound |
| PrefixDelegation.ReplyMeaning | internal/prefix/dhcpv6pd_receiver.go:476-774 | a reply disowns the delegation if and only if its status is NoBinding, or it is not refused and the first association asked for has NoBinding; it grants a lease if and only if nothing is refused, with the first valid prefix of that association, the server's timers where set, and the reply's lifetimes |
| PrefixDelegation.JitterReaches | internal/prefix/dhcpv6pd_receiver.go:231-241 | every delay within a fifth is drawn for some roll |
| PrefixDelegation.GrantedLease | internal/prefix/dhcpv6pd_receiver.go:645-749 | a granted lease is for a masked, accepted prefix, with a positive renewal time, from now |
| PrefixDelegation.PDReceiver.ProcessIAPDReply | internal/prefix/dhcpv6pd_receiver.go:645-774 | no binding if and only if the reply disowns the delegation; no error if and only if it grants the lease taken; the event says how the prefix changed; an error changes nothing |
| PrefixDelegation.PDReceiver.DropLease | internal/prefix/dhcpv6pd_receiver.go:267-274 | lease and prefix go together, with an expired event |
| PrefixDelegation.PDReceiver.Iterate | internal/prefix/dhcpv6pd_receiver.go:304-381 | one turn: acquire, renew, rebind or drop, and how long it waited |
| PrefixDelegation.PDReceiver.RunLoop | internal/prefix/dhcpv6pd_receiver.go:293-382 | the initial attempt and then turns until stopped |
| PrefixDelegation.EveryRunKeeps | internal/prefix/dhcpv6pd_receiver.go:293-382 | in every state a receiver reaches, over any number of starts and stops, a lease is held iff a prefix is and they agree, the prefix is masked and accepted, and replaying the sent events gives the current prefix |
| PrefixDelegation.EveryGenerationKeeps | internal/prefix/dhcpv6pd_receiver.go:293-382 | one run of the loop keeps that from any state that has it, a restart with the lease still held included |
| PrefixDelegation.LeaseLostExactly | internal/prefix/dhcpv6pd_receiver.go:332-365 | a held lease is given up if and only if a due renewal is not granted and the answer disowns it, or the rebind time has passed and no rebind is granted; it is replaced if and only if a due answer grants another, and by that one |
| PrefixDelegation.LeaseTakenExactly | internal/prefix/dhcpv6pd_receiver.go:293-324 | without a lease a turn takes exactly the lease the answer grants; so does the first attempt after a restart, which else keeps what it had |
| PrefixDelegation.AcquisitionTells | internal/prefix/dhcpv6pd_receiver.go:309-324 | an acquisition is told as the prefix acquired or as one error |
| PrefixDelegation.RenewalTells | internal/prefix/dhcpv6pd_receiver.go:332-365 | the exact events of a turn with a lease, case by case: errors of failed exchanges, the prefix renewed or changed, the lease gone |
| PrefixDelegation.UnchangedLeaseWaits | internal/prefix/dhcpv6pd_receiver.go:328-381 | with a lease a turn waits a positive time if and only if it ends with that lease: until renewal is due, a minute at most, or half a minute after a failed renewal; without one it always waits |
| CrowdSec.CrowdsecTrustedPrefixes | internal/controller/crowdsec_controller.go:96-109 | the reverse loop collects the current prefix and the draining ones, newest first |
| CrowdSec.TrustedMeaning | internal/controller/crowdsec_controller.go:96-109 | without repeats, the current prefix first, and exactly the history prefixes not expired |
| CrowdSec.CapKeepsNewest | internal/controller/crowdsec_controller.go:163-169 | after any run of rotations the cut keeps the current prefix and the newest draining ones and drops the oldest |
| CrowdSec.Sync | internal/controller/crowdsec_controller.go:206-250 | at every point either everything this owner had marked or everything wanted is marked; success leaves the wanted marked and nothing unwanted of this owner; in sync it only lists |
| CrowdSec.OthersSurvive | internal/controller/crowdsec_controller.go:236-238 | after a successful sync every other owner's markers are still there if and only if none is for a value this owner gave up |

## Left out

- Watches, informers, events, metrics, leader election, conditions, requeue times and Server-Side Apply: library behaviour.
- netip parsing and printing, SHA-256 and FNV: parameters with the assumptions listed above; address zones and IPv4-mapped addresses are outside the model.
- Writing the announcer-nudge annotation of a Service, a fingerprint of a set; a release removes it.
- Assigned IPv4 addresses in the derivation modes: the model takes an assigned IPv6 address.
- IPv4 subnet bases: the model carves IPv6 prefixes only.
- Field read errors of malformed unstructured objects: they end a pass before it changes anything.
- ProviderFlips.FlipsKeepUserEntries: entries are compared up to repeats, because a pass removes the user's own repeats; the user removes an entry with all its spellings.
- DnsTarget.DnsFollowsAddress: a run without user edits of the target, as the promise is about rotations; the user's entries are those of the first configured key present and may be anything, but a pass without a record claims none of them (DnsTarget.TargetKeptIffGrounded).
- EndToEnd.RunSafety: foreign objects may not hold or take the names of siblings a run needs, and names must tell the run's CIDRs apart.
- SharedReceiver.AnyRun: Start and Stop are atomic, as the controller's lock makes them; fan-out of events to channels is not modelled.
- PrefixDelegation.EveryRunKeeps: the events are those sent; a full channel may lose some before a reader sees them.
- PrefixDelegation.PDReceiver.RunLoop: a stop is noticed in a wait, not between exchanges; the SOLICIT, ADVERTISE and REQUEST messages are one exchange.
- CrowdSec: LAPI login, TLS, readiness gating and the range check on prefixes; a listing is the markers in force when it is answered.
- Cilium version detection, API discovery, BGP advertisements, the composite receiver, Router Advertisement screening, rejection reports and AddressCount: I/O or short branch tables.
