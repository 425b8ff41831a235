# Network operations platform: a verified model

The repository is a network operations platform. This project models the parts of it that keep
records consistent and proves what they are for:

- **IP planning** (`Addressing`, `IpamTables`, `IpamRules`, `IpamValidation`, `IpamSafety`, `IpamRuns`,
  `IpamAllocation`, `IpamAddressFiles`, `IpamEffects`, `IpamPromises`, `IpamService`, `IpamTransfer`, `IpamTree`,
  `IpamCapacity`): aggregates, nested prefixes, addresses, the
  machines and devices that own them, bulk generation, imports, exports and the overview tree.
- **DHCP sources** (`DhcpSafety`, `DhcpTrace`, `DhcpPools`, and the sync events of `IpamRuns`): bindings between prefixes
  and address pools, a sync that races with edits, and the arithmetic of pool ranges and leases.
- **External inventory sync** (`InventorySync`, `SyncRepeat`, `SyncRuns`, `SyncLocks`, `SyncConflicts`, `SyncService`).
- **The SQLite to PostgreSQL copy** (`SnapshotCopy`).
- **CSV import of devices, machines and networks** (`CsvImport`, `CsvOutcome`).
- **Configuration history with retention** (`Backups`).
- **The recursive discovery crawl** (`Discovery`).

`Collections` and `Sorting` hold shared vocabulary and the stable sort.

## How the model is built

Code that changes rows in place is a class whose fields are the tables (`IpamService.Inventory`,
`IpamTree.TreeBuilder`, `SnapshotCopy.Target`, `Backups.BackupStore`, `SyncService.Synchroniser`,
`CsvImport.Importer`, `Discovery.Crawler`); each method keeps the source's loops and its order of checks.
Where an operation has more to say than its own contract can, the method is proved equal to a specification
function without loops, and the laws are lemmas about that function. A refusal carries the HTTP status the
endpoint answers with, and the tables are then as they were. Each method of `Inventory` that changes tables
also states what it keeps: the audit stays empty (`Invariant`) and no record that carries a machine changes
(`KeepsOccupied`), for every state in which that held and every key the database could hand out. And each
states, in predicates over the tables and the request that use none of the specification functions, exactly
when it is accepted and what an accepted call leaves behind (`IpamAllocation`, `IpamAddressFiles`,
`IpamEffects`).

Conventions used throughout:

- A primary key is a natural number. The program tests keys for truth, so key 0 reads as absent (`IsSet`);
  every run keeps key 0 unused (`Keyed`).
- Keys the database hands out are parameters, required to be unused. The order in which a query without
  ORDER BY returns rows is a parameter, or a free choice inside a loop; every result holds for all of them.
- Foreign keys are enforced by the database, so storing a dangling reference is refused with status 500.
- A network is a masked address and a length, as in section 3.1 of RFC 4632. Text that may or may not spell
  a block is `Block(cidr)` or `Words(text)`.
- Device answers, collected pools, fetched inventories, clocks and new keys are inputs.

## What is false of the code, and exactly when it holds

- Clearing or emptying an aggregate's CIDR text while it has prefixes spoils the audit
  (`IpamSafety.BlankingBreaksTheAudit`). Every other call keeps it: `IpamRuns.StepKeepsInvariant` is an
  if and only if, and runs are stated for all sequences without such a call (`Unspoilt`).
- A DHCP sync does not always replace the value it read first. `sync_source` loads the row once through
  `get_source` (line 87) and again at line 96; nothing holds on to the first row object in between, so the
  second load is a query of its own, and the default isolation of both databases lets it see a commit made
  in between. A save that lands between the two and touches neither the identity nor
  the compared settings is overwritten (`IpamRuns.SaveBetweenReadsIsLost`). What holds over every run: a commit
  that changes anything changes the source its sync read twice, from the text of the second read to what was
  made of the text of the first (`DhcpTrace.CommitIsTraced`). The text it replaces is the one of the first read
  exactly if no event between the two reads wrote the source, or the last one that did put that text back; and
  it writes at all exactly if the same is true of the second read and the commit
  (`DhcpTrace.CommitWritesExactly`).
- A device with captures does not always have a baseline. Marking the row that already is the baseline clears
  its flag in one statement, and the assignment that follows changes nothing the session knows of, so it is not
  written (`Backups.RemarkLosesTheBaseline`). One mark keeps exactly one baseline if and only if the marked row
  is not the baseline (`Backups.MarkKeepsOneBaseline`), a whole run does if and only if it has no such mark
  (`Backups.OneBaselineThroughout`), and a device is without one exactly when its last mark was such a mark
  (`Backups.BaselineUnlessLost`). That no device has two holds always.
- Importing an accepted address file again is not always accepted. A row that names its aggregate may put a
  prefix of the same network under a second aggregate, so that another row, which named none, no longer has one
  home (`IpamAddressFiles.SomeFileIsRefusedAgain` gives the file). The second import is accepted, creates
  nothing and changes nothing, if and only if each row still means one aggregate and one prefix in the tables
  the first import left (`IpamAddressFiles.AddressFileAgain`); a file without an aggregate column always can be
  imported again (`IpamAddressFiles.PlainFileAgain`).
- Usable addresses and generated hosts are the same number except on IPv6 blocks of more than two addresses
  (`IpamCapacity.UsableMeansGenerated`): the count keeps the first address there, the host list does not.
- A second sync of the same inventory is quiet exactly when every item is settled, that is, its effective
  primary address is not among its further addresses or those are locked (`SyncRepeat.SecondSyncIsQuiet`).
- A locked list of further addresses changes exactly when the new primary is one of its entries
  (`InventorySync.LockedFieldsHold`).
- A confirmed machine has a stale time exactly when a complete run missed it since its last renewal
  (`SyncRuns.ConfirmedTimeMeansMissed`); only an active and a plain stale state determine the stale time.

## Model

| member | source | states |
|---|---|---|
| `Addressing.MaskMeaning` | app/services/ipam_import.py:9-17 | Masking a block keeps its address inside, and masking a network changes nothing. |
| `Addressing.SubnetIsPrefixMatch` | app/services/ipam_import.py:26-28 | The containment test by address ranges agrees, both ways, with the prefix match of section 3.1 of RFC 4632. |
| `Addressing.StrictSubnetIsLonger` | app/services/ipam_import.py:26-28 | Strict containment lengthens the mask and cannot be mutual, so chains of parents cannot close. |
| `Addressing.NestedOrDisjoint` | app/services/ipam_import.py:26-28 | Two networks that share an address nest. |
| `Sorting.SortAscends` | app/services/ipam_import.py:126-128 | The sort used by imports and pools puts its result in ascending order for any total preorder; it is a permutation by contract. |
| `IpamValidation.LocalCheckIsExact` | app/services/ipam_import.py:31-58 | Sound and complete: on a forest whose audit is empty, the check accepts a create or an edit exactly when installing the returned network and aggregate under that parent leaves the audit empty. |
| `IpamValidation.ChainEnds` | app/services/ipam_import.py:40-45 | If the forest with the row installed is clean, the walk up the parents meets no row twice. |
| `IpamService.Inventory.WalksInCircles` | app/services/ipam_import.py:40-45 | The parent walk terminates on every parent graph, cyclic ones included, and reports a loop exactly when following parents returns to a seen row. |
| `IpamService.Inventory.ValidatePrefix` | app/services/ipam_import.py:31-58 | The checks in source order answer exactly what the loop-free rule decides, for every state. |
| `IpamService.Inventory.AuditRelations` | app/services/ipam_import.py:215-243 | One issue per prefix with a broken link, per group of duplicates with precisely its members, and per misplaced or doubly owned address, and no others; nothing is reported exactly when the state is clean. |
| `IpamService.Inventory.CreateAggregate` | app/routers/ipam.py:138-153 | Accepted exactly when the text spells a block; the row sent is then stored, holds its own block, and nothing else changes; the invariant and every occupied record are kept. |
| `IpamService.Inventory.UpdateAggregate` | app/routers/ipam.py:156-178 | Refuses a new block that does not hold every prefix of the aggregate, in the order of the source (409 before 404 before 400); an accepted call leaves each sent field as sent and everything else as it was; the invariant is kept exactly unless it blanks the block of an aggregate with prefixes. |
| `IpamService.Inventory.DeleteAggregate` | app/routers/ipam.py:181-198 | Accepted exactly when it exists and none of its prefixes is bound or holds an occupied record; then precisely the aggregate, its prefixes and their addresses are gone; the invariant and every occupied record are kept. |
| `IpamService.Inventory.CreatePrefix` | app/routers/ipam.py:269-300 | Accepted exactly when the row asked for, with the aggregate of its parent when none is named, keeps the audit empty; it then stores that very row and nothing else; the invariant is kept. |
| `IpamService.Inventory.UpdatePrefix` | app/routers/ipam.py:303-339 | All refusals in source order; accepted exactly when the row asked for keeps the audit empty and another network is sent only for a prefix without addresses and binding; it then stores that very row, attributes included, and nothing else. |
| `IpamService.Inventory.DeletePrefix` | app/routers/ipam.py:342-359 | Accepted exactly when the prefix exists, is not bound, has no child and holds no occupied record; then precisely it and its addresses are gone; the invariant and every occupied record are kept. |
| `IpamService.Inventory.CreateIp` | app/routers/ipam.py:514-552 | Accepted exactly when the prefix holds the address and has no record of it, and the device exists; the record stored says what the request says, and is the only one of its address there; the invariant and every occupied record are kept. |
| `IpamService.Inventory.UpdateIp` | app/routers/ipam.py:555-599 | Refused while a machine holds the record; an accepted call leaves each sent field as sent and the others as they were, inside the prefix and alone on its address; the invariant and every occupied record are kept. |
| `IpamService.Inventory.DeleteIp` | app/routers/ipam.py:602-611 | An accepted call removes that record alone, and never one that carries a machine; the invariant is kept. |
| `IpamService.Inventory.GenerateIps` | app/routers/ipam.py:614-655 | created + skipped is the number of hosts, the table grows by exactly `created`, only bare planned records of the prefix are added, and the invariant and every occupied record are kept. |
| `IpamService.Inventory.BuildIpToDeviceMap` | app/services/device_ip_link.py:46-60 | Maps an address to a device exactly when one and only one device holds it. |
| `IpamService.Inventory.ContainingPrefix` | app/services/device_ip_link.py:70-82 | The first prefix, in query order, that holds the address. |
| `IpamService.Inventory.SyncDeviceAutoLinks` | app/services/device_ip_link.py:114-159 | Drops the automatic records of addresses the device lost; then every further address that a prefix holds is registered in the first such prefix, and every record added is such a one, in the name of the device; the invariant and every occupied record are kept. |
| `IpamService.Inventory.DeleteDevice` | app/routers/devices.py:342-372 | Exactly the automatic records of the device go, the others keep everything but the link, so that no record names it; the invariant and every occupied record are kept. |
| `IpamService.Inventory.DeleteVms` | app/services/ip_allocation.py:65-67 | No record carries a deleted machine afterwards, and the invariant and every occupied record are kept. |
| `IpamService.Inventory.Allocate` | app/services/ip_allocation.py:9-62 | Answers 200 exactly under conditions told by the tables alone; without release exactly one record of that prefix and address then carries the machine in use, with release the one that carried it carries none and is planned; every other record is as it was; the invariant is kept. |
| `IpamService.Inventory.Occupy` | app/services/ip_allocation.py:38-57 | The occupying half: every refusal in order, the row that is written or reused, and then exactly one record of the address in the prefix, in use by the machine, all others untouched. |
| `IpamService.Inventory.ResolveAggregate` | app/services/ipam_import.py:108-124 | Whatever aggregate a row is given, found or created, is stored and holds the network; the invariant is kept. |
| `IpamService.Inventory.ImportRow` | app/services/ipam_import.py:136-202 | An accepted row of any kind keeps the invariant and adds at most one aggregate, one prefix and one address; an address row ends with exactly one record of its address in its home, and a record it added has the row's one matching device (or none), its allocation, status and texts. |
| `IpamService.Inventory.ImportPending` | app/services/ipam_import.py:129-209 | All rows in order, or a rollback: a refused row leaves every table as it was. |
| `IpamService.Inventory.RunImport` | app/services/ipam_import.py:61-212 | The whole import: limits, required columns, parents-first order for prefixes, atomicity, counts; after an accepted address file every row is filed and everything added says what a row says; the invariant and every occupied record are kept. |
| `IpamService.Inventory.SaveSource` | app/services/dhcp_integration.py:60-83 | The source stored says what was sent; the same identity keeps the snapshot with the flag of the new threshold, another one ends without snapshot and without a bound prefix; every binding holds. |
| `IpamService.Inventory.DeleteSource` | app/routers/dhcp.py:92-102 | No prefix is bound to the source afterwards, and the invariant is kept. |
| `IpamService.Inventory.BindPrefix` | app/services/dhcp_integration.py:128-150 | Accepted exactly when the source is on, without error, and its snapshot is of the prefix's network (or no source is named); then that prefix alone is bound to it, or to none; the invariant is kept. |
| `IpamService.Inventory.Digest` | app/services/dhcp_integration.py:97-109 | A reply whose masked network is IPv4 at the scope with an ordered range inside ends with no error and a snapshot of that network, range and percentage, with a warning exactly at or above the threshold; every other reply keeps the snapshot and records the failure; a consistent source stays consistent. |
| `IpamService.Inventory.CheckSync` | app/services/dhcp_integration.py:110-113 | When it passes, a swap made at once would keep the whole invariant. |
| `IpamService.Inventory.CommitSync` | app/services/dhcp_integration.py:114-120 | No other source and no other table changes; with the guard of the comparison the invariant is kept. |
| `IpamSafety.UpdateAggregateSafe` | app/routers/ipam.py:156-178 | An accepted update keeps everything exactly when it does not blank the block of an aggregate that has prefixes. |
| `IpamSafety.BlankingBreaksTheAudit` | app/routers/ipam.py:158-175 | A concrete inventory and request after which the audit is not empty. |
| `IpamSafety.DeleteAggregateSafe` | app/routers/ipam.py:181-198 | No parent link dangles afterwards, because a parent shares its child's aggregate. |
| `IpamSafety.CreatePrefixSafe` | app/routers/ipam.py:269-300 | Keeps the whole invariant. |
| `IpamSafety.UpdatePrefixSafe` | app/routers/ipam.py:303-339 | Keeps the whole invariant, addresses and DHCP bindings included. |
| `IpamSafety.DeletePrefixSafe` | app/routers/ipam.py:342-359 | Keeps the whole invariant. |
| `IpamSafety.CreateIpSafe` | app/routers/ipam.py:514-552 | Keeps the whole invariant. |
| `IpamSafety.UpdateIpSafe` | app/routers/ipam.py:555-599 | Keeps the whole invariant. |
| `IpamSafety.DeleteIpSafe` | app/routers/ipam.py:602-611 | Keeps the whole invariant. |
| `IpamSafety.GeneratedSafe` | app/routers/ipam.py:614-655 | Keeps the whole invariant, changes no existing record, and every new record is planned, ownerless and for an address that had none. |
| `IpamSafety.SyncAutoLinksSafe` | app/services/device_ip_link.py:114-159 | Keeps the invariant and touches no record that carries a machine. |
| `IpamSafety.SaveDeviceSafe` | app/routers/devices.py:278-338 | Saving a device, then its automatic records, keeps the invariant and every occupied record. |
| `IpamSafety.DeleteDeviceSafe` | app/routers/devices.py:351-372 | Deleting a device keeps the invariant and every occupied record. |
| `IpamSafety.AllocateSafe` | app/services/ip_allocation.py:9-62 | Keeps the invariant; in particular no address is occupied twice anywhere. |
| `IpamSafety.ImportRowSafe` | app/services/ipam_import.py:136-202 | Every accepted row of every kind keeps the invariant. |
| `IpamSafety.ImportRowsSafe` | app/services/ipam_import.py:129-209 | Every accepted import keeps the invariant and leaves every existing address record as it is. |
| `IpamAllocation.AllocationTakesHold` | app/services/ip_allocation.py:9-62 | Accepted exactly when the machine and prefix exist, the prefix holds the address, and the address is free (or the machine's already), unreserved, reported by this machine alone and by no single device, or, for a release, carried by this machine; it then takes or frees exactly that one record. |
| `IpamAllocation.OccupationLasts` | app/services/ip_allocation.py:19-67 | Over any run without the matching release, the record an accepted occupation made or took is still there, unchanged. |
| `IpamAllocation.AddressPassesOn` | app/services/ip_allocation.py:19-62 | After such a run the release is accepted and frees that very record, and another machine that alone reports the address can then take it, if nothing else registered stands in the way. |
| `IpamAddressFiles.AddressRowIsDone` | app/services/ipam_import.py:171-202 | An accepted address row leaves exactly one record of its address in the prefix it means; a record it added has the row's matching device or none, its allocation or the static one, its status or the default, and its texts. |
| `IpamAddressFiles.AddressFileTakesHold` | app/services/ipam_import.py:129-209 | After an accepted address file every row is filed, every record added says what one of its rows says, the count is the number added, and every aggregate and prefix added was made for a row. |
| `IpamAddressFiles.FileMakesHomes` | app/services/ipam_import.py:136-169 | Aggregates and prefixes an address file adds are the ones its rows spell, bare and with the fixed texts. |
| `IpamAddressFiles.AddressFileAgain` | app/services/ipam_import.py:129-209 | Importing an accepted address file again is accepted if and only if each row still means one aggregate and one prefix in the tables the first import left; it then creates nothing and changes nothing. |
| `IpamAddressFiles.PlainFileAgain` | app/services/ipam_import.py:171-202 | A file that names no aggregates always can be imported again, creates nothing and changes nothing. |
| `IpamAddressFiles.SomeFileIsRefusedAgain` | app/services/ipam_import.py:171-202 | A concrete file that is accepted once and refused the second time. |
| `IpamEffects.CreationIsExact` | app/routers/ipam.py:269-300 | A creation is accepted exactly when the row asked for keeps the audit empty, and then stores that row and nothing else. |
| `IpamEffects.EditIsExact` | app/routers/ipam.py:303-339 | An edit is accepted exactly when the row asked for keeps the audit empty and its network is unchanged or free to change, and then stores that row and nothing else. |
| `IpamEffects.AggregateIsDeleted` | app/routers/ipam.py:181-198 | Accepted exactly when no prefix of it is bound or occupied; precisely it, its prefixes and their records go. |
| `IpamEffects.PrefixIsDeleted` | app/routers/ipam.py:342-359 | Accepted exactly when the prefix is unbound, childless and without occupied record; precisely it and its records go. |
| `IpamEffects.IpIsCreated` | app/routers/ipam.py:514-552 | The record stored carries what was sent, under the conditions stated on the tables. |
| `IpamEffects.IpIsEdited` | app/routers/ipam.py:555-599 | An accepted edit leaves each sent field as sent, the others as they were, and every other record alone. |
| `IpamEffects.DeviceIsLinked` | app/services/device_ip_link.py:114-159 | After a device is saved, each further address with a containing prefix is registered in the first one; automatic records of lost addresses are gone; nothing else changed. |
| `IpamEffects.DeviceIsDeleted` | app/routers/devices.py:351-372 | Exactly the automatic records of the device are removed, and exactly its links are cleared. |
| `IpamEffects.SourceIsSaved` | app/services/dhcp_integration.py:60-83 | The stored source is the one sent, with its snapshot kept exactly when the identity is the same. |
| `IpamEffects.SourceIsBound` | app/services/dhcp_integration.py:128-150 | A binding is accepted exactly when the source is on, healthy and has a snapshot of the prefix's very network, and binds that prefix alone. |
| `IpamEffects.GeneratedAreBare` | app/routers/ipam.py:614-655 | Accepted exactly up to 4096 hosts; it only adds planned records without owner or text to the one prefix. |
| `DhcpSafety.SaveSourceSafe` | app/services/dhcp_integration.py:55-83 | A save keeps every snapshot at its scope with the right flag, and every binding. |
| `DhcpSafety.DeleteSourceSafe` | app/routers/dhcp.py:92-102 | A deletion leaves no binding without a source. |
| `DhcpSafety.BindPrefixSafe` | app/services/dhcp_integration.py:128-150 | A binding joins a prefix to a source whose scope is its network address. |
| `DhcpSafety.CollectedOk` | app/services/dhcp_integration.py:97-109 | Whatever the device replies, the value to be stored matches its own scope and threshold. |
| `DhcpSafety.CollectedReflects` | app/services/dhcp_integration.py:97-109 | An acceptable reply is stored as the snapshot with the right warning and no error; any other keeps the snapshot and is recorded as the error. |
| `DhcpSafety.SaveSourceKeepsGuard` | app/services/dhcp_integration.py:55-83 | Between comparison and swap a save cannot give a source another identity while it is bound, nor keep its snapshot when it does. |
| `DhcpSafety.BindKeepsGuard` | app/services/dhcp_integration.py:128-150 | Nor can a prefix be bound to a source that changed identity meanwhile, as it has no snapshot. |
| `DhcpSafety.CommitSafe` | app/services/dhcp_integration.py:114-120 | The swap keeps the invariant, bindings included, even if the source was changed and changed back since the comparison. |
| `IpamRuns.StepKeepsInvariant` | app/routers/ipam.py:138-359 | Each call keeps the audit empty, occupancy exclusive, addresses unique and DHCP consistent, exactly unless it blanks the block of an aggregate with prefixes. |
| `IpamRuns.RunKeepsWorld` | app/services/ipam_import.py:215-243 | After any interleaving of all these calls with the five steps of any number of syncs in flight (read, lock and re-read, collect, compare, swap), the audit is empty and the rest of the invariant holds. |
| `IpamRuns.StepKeepsGuard` | app/services/dhcp_integration.py:114-120 | No call of any kind undoes what a sync relies on between its comparison and its swap. |
| `IpamRuns.CommitKeepsWorld` | app/services/dhcp_integration.py:86-125 | With the process lock only one sync is past its second read, so a commit disturbs no other sync. |
| `IpamRuns.OnlyReleaseEndsOccupancy` | app/services/ip_allocation.py:32-36 | One call changes an occupied record only if it is the release naming its machine, prefix and address. |
| `IpamRuns.OccupancyPersists` | app/services/ip_allocation.py:19-67 | Over a whole run without that release, the occupied record does not change at all. |
| `IpamRuns.SaveBetweenReadsIsLost` | app/services/dhcp_integration.py:86-120 | A title saved between the two reads is overwritten with the old one. |
| `DhcpTrace.AtIsRun` | app/services/dhcp_integration.py:86-125 | The world at a point of a run is the run of the events before it. |
| `DhcpTrace.EverySyncIsTraced` | app/services/dhcp_integration.py:86-120 | Every sync in flight goes back to one first read, has not been restarted since, and holds what its own steps read, in the order read, lock and re-read, collect, compare. |
| `DhcpTrace.CommitIsTraced` | app/services/dhcp_integration.py:86-120 | Over every run: if a commit changes anything, its sync read the source twice before; the text it replaces is the one stored at the second read, and what it stores is what the collection made of the text of the first and the reply in between, which CommitStoresReply tells by the reply. |
| `DhcpTrace.CommitStoresReply` | app/services/dhcp_integration.py:86-120 | After a writing commit the stored snapshot, warning and error are those the reply of its collect event calls for. |
| `DhcpTrace.GoodReplyAllowsBinding` | app/services/dhcp_integration.py:128-150 | A source that stored an acceptable reply can be bound to a prefix exactly if that is the reply's network. |
| `DhcpTrace.CommitWritesExactly` | app/services/dhcp_integration.py:96-120 | By the events alone: a commit writes exactly if nothing wrote the source since the second read or the last write put that text back; it replaces the text of the first read exactly if the same is true between the two reads. |
| `DhcpTrace.OnlyCallsIntervene` | app/services/dhcp_integration.py:86-120 | Under the process lock, only saves and deletions by calls can write the source between the second read and the commit. |
| `DhcpTrace.LaterSaveStands` | app/services/dhcp_integration.py:114-120 | A save or deletion after the second read stands: the commit then writes nothing. |
| `DhcpTrace.EventMeetsSource` | app/services/dhcp_integration.py:60-83 | Only an accepted save or deletion of a source, or a commit of a sync of it, changes its stored text. |
| `IpamTransfer.ExportThenImport` | app/services/ipam_import.py:106-209 | Round trip: importing the exported aggregates and then the exported prefixes into nothing rebuilds the same forest up to keys (blocks, names, parents, aggregates, attributes), for any order of the rows, creating one record per row. |
| `IpamTransfer.ImportBackCreatesNothing` | app/routers/ipam.py:869-892 | Importing an export into the inventory it came from creates nothing and changes nothing. |
| `IpamTransfer.RowMeetsCopy` | app/services/ipam_import.py:145-169 | The exported row of a prefix whose links are copied adds precisely its copy, or finds the copy already there. |
| `IpamTransfer.ParentsFirst` | app/services/ipam_import.py:126-128 | In the sorted file every parent comes before its children. |
| `IpamTransfer.RowsDiffer` | app/routers/ipam.py:878-892 | Different prefixes export different rows. |
| `IpamTree.TreeBuilder.BuildNode` | app/routers/ipam.py:453-459 | Terminates for any parent relation; lists the row and everything unvisited below it, each once, each under the parent it names. |
| `IpamTree.TreeBuilder.BuildTree` | app/routers/ipam.py:439-473 | Every prefix is listed exactly once whatever its links are; one group per aggregate, and a leftover group exactly for the prefixes that no top row of an aggregate leads to. |
| `IpamTree.PlacedMeansAggregated` | app/routers/ipam.py:461-472 | On a consistent inventory a prefix is outside the leftover group exactly when it has an aggregate. |
| `IpamTree.ClosedHoldsPlaced` | app/routers/ipam.py:461-466 | A set with all top rows and all children of its members holds every prefix reached from a top row. |
| `IpamCapacity.CountsAreExact` | app/routers/ipam.py:84-95 | `total` and `usable` are the numbers of addresses and of allocatable addresses; a /31 has both, as in section 2.1 of RFC 3021. |
| `IpamCapacity.HostsAreUnreserved` | app/routers/ipam.py:628-639 | For IPv4 the generated hosts are exactly the addresses an allocation would not turn down as reserved. |
| `IpamCapacity.UsableMeansGenerated` | app/routers/ipam.py:84-95 | The usable count is the number of generated hosts exactly on IPv4 or on blocks of at most two addresses. |
| `IpamCapacity.RecordsFit` | app/routers/ipam.py:362-400 | An IPv4 prefix never holds more records than addresses. |
| `IpamCapacity.GenerationFillsThePrefix` | app/routers/ipam.py:614-655 | Accepted generation leaves every host registered, adds one record for each host that had none, and a second one changes nothing; it is refused only above the limit. |
| `DhcpPools.NeighboursSuffice` | app/services/firewall_dhcp.py:25-27 | On sorted ranges the comparison of neighbours holds exactly when no address lies in two ranges. |
| `DhcpPools.SortedIsSamePool` | app/services/firewall_dhcp.py:25-27 | Sorting changes neither whether ranges form a pool nor which addresses they hold. |
| `DhcpPools.Ranges` | app/services/firewall_dhcp.py:18-28 | Accepts exactly non-empty lists of ranges inside the network that share no address, and returns them apart and in order. |
| `DhcpPools.TotalIsCount` | app/services/firewall_dhcp.py:61-61 | The sum of the range lengths is the number of different addresses. |
| `DhcpPools.EndsArePoolEnds` | app/services/firewall_dhcp.py:34-35 | The reported start and end are the smallest and the largest address of the pool. |
| `DhcpPools.ReadLeases` | app/services/firewall_dhcp.py:62-71 | Refuses exactly when some row cannot be trusted; otherwise collects the distinct leased addresses, all of them in the pool. |
| `DhcpPools.FindServer` | app/services/firewall_dhcp.py:49-52 | Finds the entry of an interface exactly when there is only one. |
| `DhcpPools.CountsAccount` | app/services/firewall_dhcp.py:31-39 | Counted figures always pass the plausibility check: the configured ranges in order, the first and last address, used and free counts that add up to the pool, and their percentage. |
| `DhcpPools.Fortinet` | app/services/firewall_dhcp.py:42-72 | A snapshot is made exactly when one countable server owns the interface and every lease row can be trusted; its used and free counts are exact, and ranges, ends and percentage describe the pool. |
| `DhcpPools.PaloAlto` | app/services/firewall_dhcp.py:85-111 | Device figures are taken over exactly when there is one enabled server, its ranges form a pool, and the reported size is the number of its addresses; ranges, ends, counts and percentage then describe the pool. |
| `SnapshotCopy.Target.Insert` | app/services/sqlite_to_postgres.py:82-82 | One INSERT: the caller owes new keys and foreign keys that hold after the statement; it fails only on an empty required column. |
| `SnapshotCopy.Target.Update` | app/services/sqlite_to_postgres.py:83-87 | One UPDATE by primary key; the caller owes foreign keys that hold after the statement. |
| `SnapshotCopy.Target.InsertAll` | app/services/sqlite_to_postgres.py:70-82 | All rows go in, in batches of any size, with self references empty, and every foreign key holds after each batch. |
| `SnapshotCopy.Target.RestoreAll` | app/services/sqlite_to_postgres.py:83-87 | Restoring the self references row by row keeps every foreign key and ends with the source rows. |
| `SnapshotCopy.BlankedThenRestored` | app/services/sqlite_to_postgres.py:76-87 | Emptying and restoring the self references gives the row back and changes neither its key nor its required columns. |
| `SnapshotCopy.Target.SetSequences` | app/services/sqlite_to_postgres.py:93-99 | Afterwards every sequence of the table hands out one past the largest key, at least 2, and 1 for a table without keys. |
| `SnapshotCopy.Target.CopyTable` | app/services/sqlite_to_postgres.py:65-99 | A table is copied exactly unless a self reference is required or a required column is empty; the comparison at the end never fails. |
| `SnapshotCopy.Target.Copy` | app/services/sqlite_to_postgres.py:31-100 | The copy goes through exactly when the stated checks hold; then every table equals its source and every sequence is past every copied key, and otherwise the rows are as they were. |
| `CsvImport.NewRowHasLineKeys` | app/services/csv_inventory_import.py:115-164 | A stored row is known by exactly the identities its line was checked for: no further address is dropped. |
| `CsvImport.AddedRowsAreAlone` | app/services/csv_inventory_import.py:96-176 | An accepted file leaves every row that was there, no added row shares an identity with any other row, and added + skipped is the number of lines. |
| `CsvImport.SecondImportAddsNothing` | app/services/csv_inventory_import.py:70-185 | Importing an accepted file again adds nothing and changes nothing. |
| `CsvImport.MatchesAreHolders` | app/services/csv_inventory_import.py:116-117 | The rows found through the index are exactly the rows sharing an identity with the line. |
| `CsvImport.Importer.IndexRow` | app/services/csv_inventory_import.py:92-94 | Indexing a row adds it under each of its keys and nowhere else. |
| `CsvImport.Importer.BuildIndex` | app/services/csv_inventory_import.py:96-97 | The first index is the one of the table. |
| `CsvImport.Importer.FindMatches` | app/services/csv_inventory_import.py:116-117 | With an index that agrees with the table, the matches are exactly the rows sharing an identity. |
| `CsvImport.Importer.StoreExtras` | app/routers/devices.py:61-77 | Each further address once, not the main one, and for devices none that another device has. |
| `CsvImport.Importer.RunImport` | app/services/csv_inventory_import.py:70-185 | The one-pass import with its incremental index does what the rule says line by line; an error leaves everything as it was, and new networks are placed after all earlier ones. |
| `CsvOutcome.FileIsTold` | app/services/csv_inventory_import.py:70-185 | By the lines alone: a file is accepted exactly when every line can be read and every new line is in order; the table then has exactly one row for each line that shares no identity with a stored row or an earlier line, saying what that line says, and those are listed as created. |
| `CsvOutcome.SharedKeyRepeats` | app/services/csv_inventory_import.py:115-124 | Sharing an identity means a common name or address, primary or further. |
| `Backups.PruningRefinesFullHistory` | app/services/backup_service.py:64-119 | At every point of a run, the pruned history holds rows of the unpruned one, gives each capture the same flags and each device the same newest capture, the same drift verdict and a baseline exactly when the other has one; no device has two. |
| `Backups.FlagsAreTold` | app/services/backup_service.py:64-119 | A capture is flagged changed exactly when the newest stored one has another hash, and initial exactly when there is none; the row stored has the given device, hash, time and path. |
| `Backups.UnflaggedMeansUnchanged` | app/services/backup_service.py:64-119 | Over a stretch of a run, prunes included, no capture of a device is flagged if and only if each found the hash the device had at its start; the newest hash is then the same at its end. |
| `Backups.EventStands` | app/services/backup_service.py:263-286 | Each event keeps the pruned history part of the full one with every baseline and newest capture. |
| `Backups.EventKeepsOneBaseline` | app/routers/backups.py:294-308 | An event keeps exactly one baseline per device with captures if and only if it is not a mark of the row that already is the baseline. |
| `Backups.MarkKeepsOneBaseline` | app/routers/backups.py:299-308 | Marking keeps exactly one baseline per device if and only if the marked row is not already the baseline. |
| `Backups.RemarkLosesTheBaseline` | app/routers/backups.py:299-308 | A concrete store in which marking the only capture, which is the baseline, leaves the device without one. |
| `Backups.BaselineUnlessLost` | app/routers/backups.py:294-308 | At every point of a run a device has a baseline exactly when it has captures and its last mark, if any, was not of its own baseline. |
| `Backups.OneBaselineThroughout` | app/routers/backups.py:294-308 | Every device with captures has exactly one baseline at every point of a run, pruned or not, if and only if no event of it marks a baseline again. |
| `Backups.SameDrift` | app/routers/backups.py:203-207 | Drift is the same in the pruned and the full history. |
| `Backups.Survivors` | app/services/backup_retention.py:11-15 | After a prune that keeps n > 0, a device has its newest n captures and the row flagged as baseline, if any, and nothing else. |
| `Backups.SurvivorsByAge` | app/services/backup_service.py:263-286 | Without a number of its own, a device keeps by age exactly its baseline, its newest capture and what is young enough. |
| `Backups.PruneSparesOthers` | app/services/backup_service.py:263-286 | Captures of devices not pruned, or kept without limit, stay as they are. |
| `Backups.PruneRemovesFiles` | app/services/backup_service.py:287-295 | A file goes exactly when it may be removed, a removed row named it and no kept row does. |
| `Backups.NewestAreTheNewest` | app/services/backup_retention.py:14-15 | The newest n are n of them (or all), and each is newer than every row left out. |
| `Backups.RankIsPosition` | app/services/backup_retention.py:14-15 | The position of a row in the history is the number of newer rows. |
| `Backups.PruneKeepsFiles` | app/services/backup_service.py:287-294 | A file named by a kept row is never removed. |
| `Backups.BackupStore.Capture` | app/services/backup_service.py:64-119 | The stored row has the given device, hash, time and path; `changed` exactly when the newest stored capture has another hash, `initial` exactly when the device has none; no other row, file or number changes but the file it adds. |
| `Backups.BackupStore.MarkBaseline` | app/routers/backups.py:294-308 | No device gets two baselines; the marked row ends as the baseline exactly if it was not it before, and otherwise its device ends without one; other devices are untouched. |
| `Backups.BackupStore.SetRetention` | app/routers/backups.py:53-72 | Only the device's own rows become more or less exposed: with a number n > 0 exactly those past its newest n that are no baseline, with 0 none, and other devices' rows as before. |
| `Backups.BackupStore.Excess` | app/services/backup_retention.py:11-15 | Returns exactly the rows past the newest n that are no baseline. |
| `Backups.BackupStore.PruneOldBackups` | app/services/backup_service.py:263-295 | Removes exactly what retention takes for the devices, and exactly the files no kept row names. |
| `Backups.BackupStore.ListChanges` | app/routers/backups.py:134-207 | One pass finds each capture's predecessor, each device's newest capture and baseline if it has one, and counts exactly the drifted devices; a device without baseline has not drifted. |
| `InventorySync.LockedFieldsHold` | app/services/integration_sync_service.py:400-426 | A refresh keeps every locked field, except that a locked address list loses the new primary exactly when it has it. |
| `InventorySync.KeptWhole` | app/services/integration_sync_service.py:286-297 | A tidy list of further addresses is stored whole exactly when the primary is not in it. |
| `InventorySync.SecondRefreshIsQuiet` | app/services/integration_sync_service.py:393-409 | The same item finds nothing to change the second time exactly when it is settled. |
| `InventorySync.SettledStaysPut` | app/services/integration_sync_service.py:393-426 | A settled item then changes nothing but the time. |
| `InventorySync.CountsAddUp` | app/services/integration_sync_service.py:375-409 | In a run over everything, created + updated + unchanged + skipped is the number of eligible items. |
| `SyncRepeat.PreviewForetells` | app/services/integration_sync_service.py:186-228 | The preview's counts of new, changed, unchanged and refused items are the counts of the run that follows. |
| `SyncRepeat.ItemsFrame` | app/services/integration_sync_service.py:378-439 | A run changes only machines its items name, adds only under new keys, and keeps external identities unique. |
| `SyncRepeat.FirstRunLeaves` | app/services/integration_sync_service.py:378-439 | After the run each item is found as its own refresh left it, whatever the other items did. |
| `SyncRepeat.SecondSyncIsQuiet` | app/services/integration_sync_service.py:322-489 | A second full sync of the same conflict-free inventory creates and skips nothing; it updates nothing exactly when every item is quiet, and then alters nothing but times. |
| `SyncRuns.EventSince` | app/services/integration_sync_service.py:378-457 | One event does one of three things to a machine: marks it missed, renews it, or leaves it alone apart from a confirmation. |
| `SyncRuns.RunKeepsSound` | app/services/integration_sync_service.py:419-457 | At every point of a run an active machine has no stale time, a stale one has, and external identities are unique. |
| `SyncRuns.SinceIsFirstMiss` | app/services/integration_sync_service.py:441-451 | Between two renewals the stale time is the time of the first complete run that missed the machine, and there is none before that. |
| `SyncRuns.RenewalClears` | app/routers/integrations.py:374-385 | A refresh, a restore and a detachment clear the stale time. |
| `SyncRuns.PresentIsNeverMarked` | app/services/integration_sync_service.py:143-157 | A machine that is listed, excluded as a template or switched off, and any machine when the inventory was cut short, is never marked. |
| `SyncRuns.AbsentIsMarked` | app/services/integration_sync_service.py:441-451 | A run that is complete and asked to marks exactly the machines of its source that are neither excluded nor named by any item, keeping their first stale time and a confirmation, and changes nothing else of them. |
| `SyncRuns.OffIsLeftAlone` | app/services/integration_sync_service.py:143-157 | A machine that the inventory lists only as a template or as switched off is left exactly as it is. |
| `SyncRuns.ConfirmedByHand` | app/routers/integrations.py:363-391 | Since its last renewal, a machine is confirmed exactly when an operator confirmed it. |
| `SyncRuns.ConfirmedTimeMeansMissed` | app/services/integration_sync_service.py:441-451 | Since its last renewal, a machine has a stale time exactly when a complete run missed it, so it is confirmed without one exactly when it was confirmed and never missed. |
| `SyncRuns.DetachedIsLeftAlone` | app/routers/integrations.py:378-381 | A machine without external identity, as after a detachment, is left exactly as it is by every sync. |
| `SyncLocks.LocksHoldThroughout` | app/services/integration_sync_service.py:400-426 | Over any run, locked plain fields and a locked primary address of a stored machine never change, and a locked address list loses exactly the primary addresses its refreshes gave the machine. |
| `SyncLocks.LockedListStaysWhole` | app/services/integration_sync_service.py:400-426 | Over any run, a locked address list stays whole exactly when none of those primary addresses is on it. |
| `SyncLocks.OpenFieldsFollow` | app/services/integration_sync_service.py:390-430 | After a run that refreshes a machine, its unlocked fields say what the last item that refreshed it says. |
| `SyncConflicts.AsideMeansDoubtful` | app/services/integration_sync_service.py:172-201 | An item is set aside exactly when it is broken or unnamed, or new and sharing a non-empty name or address, primary or further, with a stored machine or an earlier eligible item. |
| `SyncConflicts.RunAddsNewcomers` | app/services/integration_sync_service.py:378-409 | Every machine a run creates says what a whole, named, new, unshared item said, and every such chosen item is created, exactly under its identity. |
| `SyncConflicts.NewcomerSharesNothing` | app/services/integration_sync_service.py:180-201 | A created machine shares no non-empty name and no non-empty address with any machine stored before the run or any earlier eligible item. |
| `SyncConflicts.CreatedIsGrowth` | app/services/integration_sync_service.py:378-409 | The created count is the growth of the table. |
| `SyncService.Synchroniser.FilterSyncInventory` | app/services/integration_sync_service.py:143-157 | Splits the items into eligible ones in order and excluded identities, losing none. |
| `SyncService.Synchroniser.PreviewInventory` | app/services/integration_sync_service.py:160-228 | Sets aside exactly the items that are broken, unnamed, or new with a name or address of a stored machine or of an earlier eligible item, using the name and address indexes, and counts each kind. |
| `SyncService.Synchroniser.SetVmIps` | app/services/integration_sync_service.py:286-297 | Stores each further address once, without the primary. |
| `SyncService.Synchroniser.ApplyItem` | app/services/integration_sync_service.py:378-439 | One item does what the rule says. |
| `SyncService.Synchroniser.MarkMissing` | app/services/integration_sync_service.py:441-451 | Marks exactly the missing machines of the source and counts them. |
| `SyncService.Synchroniser.ApplyCore` | app/services/integration_sync_service.py:322-489 | Refuses exactly when a machine of the source is bound to another server and then changes nothing; otherwise ends in the specified table with matching counts: every machine it creates comes from a newcomer that shares no name or address, every chosen newcomer becomes one, and `created` is the growth of the table. |
| `SyncService.Synchroniser.ManageStale` | app/routers/integrations.py:363-391 | Health and stale time still agree and external identities stay unique; a confirmation keeps the stale time, the others clear it, a detached machine has no external identity, and no other machine changes. |
| `SyncService.Synchroniser.RunScheduledSync` | app/services/integration_sync_service.py:520-546 | At most max(1, n) attempts; ends "success" exactly when some attempt is usable and has then applied the first usable inventory whole, else ends "failed" with the table untouched. |
| `Discovery.Crawler.DiscoverDevice` | app/services/discovery_service.py:100-213 | A complete answer replaces the records of its protocols; any other answer keeps the history. |
| `Discovery.Crawler.RunBatch` | app/services/discovery_service.py:432-483 | Asks every active device of the batch once: what each one answered is what is recorded of it, the counts match, and no other device's records change. |
| `Discovery.AnswerIsHeard` | app/services/discovery_service.py:205-213 | An answer records everything found, leaves nothing else of its protocols, keeps the other protocols, and touches no other device. |
| `Discovery.Crawler.UniqueNeighbours` | app/services/discovery_service.py:266-287 | The chosen records carry every address recorded for the batch, each once. |
| `Discovery.Crawler.AutoAdd` | app/services/discovery_service.py:226-402 | Every usable address of the batch becomes managed; every device added was reported for the batch and is active as its record says; the numbers of added and skipped are those of usable addresses, invalid that of the others, each address once. |
| `Discovery.AddedAddresses` | app/services/discovery_service.py:266-317 | An address belongs to an added device exactly when it is usable, was reported for the batch, and no device had it. |
| `Discovery.Crawler.Enqueue` | app/services/discovery_service.py:601-606 | Looking the added devices up by address finds precisely them. |
| `Discovery.AddedIsOnly` | app/services/discovery_service.py:601-606 | An added device is the only one with its address. |
| `Discovery.Crawler.RunFullDiscovery` | app/services/discovery_service.py:552-616 | No device is asked in two batches, only stored active ones are, and when the seeds exist every active processed one was; the records at the end are what the answers of those asked made of the ones at the start, and nothing else; every device added was reported by a processed one; when the crawl stops before its depth limit every seed and every added device is processed; every usable address recorded for a processed device is managed. |

## Left out

- HTTP, SSH, Zabbix, vCenter, firewall and PowerShell calls, installers, templates, logging, audit trails, permissions and passwords: not part of this model.
- Text layers: CSV parsing, header names, Unicode normalisation, letter case and trimming; texts stand for their normalised form.
- Address values are natural numbers without an upper bound: every theorem holds for the 32-bit and 128-bit values among them.
- IpamService.Inventory.CreateIp: IPv6 addresses are compared by value here, where create_ip, update_ip, generate_ips and the automatic records compare the spelling and would store the same IPv6 address under another one; `UniqueAddresses` therefore speaks of IPv4 only.
- IpamService.Inventory.SyncDeviceAutoLinks: the /32 rows it also writes to the older IP list are not modelled, and the marker is matched by case.
- IpamService.Inventory.ImportRow: of a record's texts only the device name and the description are modelled; DNS name, model and device address are stored beside them the same way.
- IpamService.Inventory.CreateAggregate: the planning date is part of the notes.
- IpamService.Inventory.CommitSync: stored values are compared instead of their JSON text.
- IpamService.Inventory.Digest: the percentage is not rounded, and the snapshot's own time, lease counts and pool list are not stored.
- DhcpPools.Fortinet: the percentage is not rounded, and the messages of the different refusals are not told apart.
- Legacy DHCP sources kept in the older IP list, their mode changes and their summary.
- IpamTransfer.ExportThenImport: asks for a consistent inventory with distinct aggregate blocks, no aggregate named like another's block text, each unaggregated block once, valid statuses, non-empty aggregate names and at most 50000 rows per file; addresses are not part of the exported forest.
- IpamTree.TreeBuilder.BuildTree: the per-node counters and totals shown beside the tree.
- IpamCapacity.RecordsFit: utilisation percentages and the lists of devices per prefix.
- SnapshotCopy.Target.Copy: rows are compared by value instead of by digest; unique and check constraints, cycles between tables and column types are not modelled; sequences keep their new value when the copy is cancelled, as the database does not undo them.
- CsvImport.Importer.RunImport: device groups, host lookup and ports are a single verdict per line, taken after the duplicate check; the automatic records written for new devices are covered in IpamSafety.
- Backups.PruningRefinesFullHistory: times move forward per device and a baseline is chosen among rows still stored; the predecessor shown for a change may differ once rows between have been pruned.
- Backups.BackupStore.SetRetention: devices are not stored here, so the answer for an unknown device is not modelled.
- Review status, notes, change summaries and diffs of backups.
- SyncService.Synchroniser.ApplyCore: storage rows, storage links, hosts and notes; names and addresses are compared as sent, so the stored name of an unnamed item, its external id, is not.
- SyncService.Synchroniser.RunScheduledSync: an attempt that raises for any reason, and is rolled back, is a failed fetch; the non-blocking lock is not modelled.
- Machines deleted or edited by hand between syncs.
- Discovery.Crawler.AutoAdd: names, device types, groups and credentials of new devices, the link from a neighbour record to its device, and database errors while adding.
- Discovery.Crawler.RunFullDiscovery: threads of one batch are taken one after the other; they touch different devices.
- Rack placement, log collection, terminal sessions and the data-backup archive: they would add easier members only.
