# ecmh: the MLDv2 router, modelled and proved in Dafny

ecmh is a multicast router daemon. Listeners report with MLDv2 (RFC 3810) which sources of
which groups they want on an interface; the daemon keeps one record per group and interface,
lets it lapse when nobody refreshes it, forwards packets accordingly in user space or through
kernel routes, and asks for the same traffic upstream.

The model follows the code as it is written, including the places where the code departs from
its own comments, variable names or the RFC. Where that makes an expected property false, there
is a lemma with a concrete input that shows it, and the property is proved to hold if and only
if a condition that can be tested before the step holds.

| deviation | where | consequence proved |
|---|---|---|
| D1 `YminusA` is an intersection | `src/mld2_logic.c:194` | a source asked for can stay excluded: `Deviations.StaysExcluded`, `Lease.LeaseCanBreak`, exact guard in `Lease.LeaseExact` |
| D2 all of X+A is refreshed, not only A | `src/mld2_logic.c:196-197` | `Deviations.IsRefreshed`, exact row condition in `Rfc3810.TableRefinement` |
| D3 A-X-Y is never added to the include list | `src/mld2_logic.c:218-243` | `Deviations.IsNotRequested`, same condition |
| D4 `list_add_all` adds NULL-data nodes | `src/linklist.c:147-149` | `Deviations.LeavesNull`, same condition; and such a record never goes away: `Lapse.BoundedLapse` |
| D5 query timers are set, not lowered | `src/mld2_logic.c:140` and others | `Deviations.IsProlonged`, the timer part of `Rfc3810.RowHolds` |
| D6 swapped operands of the difference | `src/mship_db.c:212` | `Mship.MergeDeviates`, `Mship.MergeCanFail`, exact condition in `Mship.MergeMeaning` |
| D7 the loop advances twice after a deletion | `src/kernel_routing.c:199-204` | half of the stale routes can survive a pass: `Routes.PassMeaning`, `Routes.PassIsSlow` |
| D8 an INCLUDE record that starts empty stays | `src/mld2_logic.c:17`, `src/mld2_logic.c:61-70` | `Lapse.BoundedLapse`, `Lapse.StuckRecords` |
| D9 auxiliary data is skipped by bytes, not words | `src/ecmh.c:1333` | `Reports.AuxWordsEndReport` |

## Layers

On values:

- `Sources.dfy`: source lists as sequences. `Mld2.dfy`: the transitions of one record.
  `Rfc3810.dfy`: the tables of the standard, compared with them. `Deviations.dfy`: the
  differences, for every record and on runs that show them.
- `Lease.dfy`, `Lapse.dfy`: whole runs of one record. `Table.dfy`: the two-level table, and the
  theorem that each record of the table lives through exactly its own events, so that what is
  proved of one record holds of all.
- `Views.dfy`: `check_route`, the forwarder and the upstream requests as readers of the table.
  `Splices.dfy`: changes to one record of the table, and the loops over it one step at a time.

On the heap, each level proved equal to the values above:

- `LinkedList.dfy`, `SourceLists.dfy`: the doubly linked list, pointer by pointer, and the list_*
  operations on source lists. A `struct msrc` belongs to one node for its whole life, so it is
  the value in the node; a NULL data pointer is `None`.
- `GrpInt.dfy`: `struct grpintnode` with its two source lists. `Groups.dfy`: `struct groupnode`
  with its list of records. `GroupList.dfy`: the global list of groups. `Ownership.dfy`: the
  members of a list own disjoint parts of the heap. `McastClient.dfy`: the array of sources for
  the kernel.
- `Conf.dfy`: the daemon's state. The sweep and the forwarder walk these lists while they
  delete from them, stepping from the next pointer of a copied node.
- `Routes.dfy`, `Reports.dfy`: the kernel-route cache and the report parser, used by `Conf.dfy`.
  `Packets.dfy`: what the address tests mean for the bytes of a packet.
  `Checksum.dfy`, `Mship.dfy`: the Internet checksum and the membership database.

Time is a parameter read once per step; what `malloc` leaves in memory is a parameter too.
`hide` statements inside proofs only keep definitions from the solver that a step does not need.

## Model

| member | source | states |
|---|---|---|
| LinkedList.List.Add | src/linklist.c:175-196 | append keeps head, tail, links in both directions and counter consistent and adds one element at the end |
| LinkedList.List.Delete | src/linklist.c:198-215 | the first node holding the pointer goes, and nothing happens when there is none |
| LinkedList.List.DeleteNode | src/linklist.c:248-257 | exactly the given node goes, and it keeps its own pointers |
| LinkedList.List.MoveFront | src/linklist.c:259-279 | the node comes first, the others keep their order, the links stay consistent |
| LinkedList.Cursor | src/linklist.h:52-54 | what LIST_LOOP finds at a position, and that it ends after the last node |
| Sources.SelectAddrs | src/linklist.c:77-101 | intersection and difference have exactly the set result |
| Sources.SelectDupFree | src/linklist.c:156-172 | intersection and difference of a duplicate-free list are duplicate-free |
| Sources.UnionMeaning | src/linklist.c:104-127 | the union is left-biased in order and timers, has every address, and none twice |
| Sources.UnionIsAppend | src/linklist.c:114-125 | on duplicate-free lists the union is the first list followed by the difference |
| Sources.RemoveAllIsDifference | src/linklist.c:130-140 | deleting in place agrees with the copying difference |
| Sources.SetTimersMeaning | src/mld2_logic.c:84-93 | timers change for the selected addresses only; addresses and uniqueness stay |
| Sources.UnexpiredMembers | src/mld2_logic.c:59-70 | a sweep keeps exactly the sources whose timer is still running |
| SourceLists.HasMember | src/linklist.c:52-70 | finds the first element with the address, if any |
| SourceLists.ListIntersect | src/linklist.c:77-101 | a fresh list with the intersection; operands unchanged |
| SourceLists.SecondLoopIdle | src/linklist.c:94-99 | the second loop of list_intersect adds nothing |
| SourceLists.ListUnion | src/linklist.c:104-127 | a fresh list with the union; operands unchanged |
| SourceLists.ListDifference | src/linklist.c:156-172 | a fresh list with the difference; operands unchanged |
| SourceLists.ListRemoveAll | src/linklist.c:130-140 | in-place removal of every member of the second list, first occurrences |
| SourceLists.ListAddAll | src/linklist.c:143-153 | D4: the sources stay the same and one NULL node appears per missing element |
| SourceLists.SetSourceTimers | src/mld2_logic.c:84-93 | the in-place loop computes SetTimers, with NULL meaning all |
| SourceLists.ExpireNode | src/mld2_logic.c:12-34 | an expired source is deleted, and the result tells whether the list became empty |
| SourceLists.ExpireList | src/mld2_logic.c:60-70 | the delete-while-iterating loop over copied nodes is a filter, and reports emptiness only after a deletion |
| Mld2.ExcludeOnExclude | src/mld2_logic.c:214-251 | the deletions and timer calls of the row amount to X*A and Y*A |
| Mld2.ExcludeOnInclude | src/mld2_logic.c:146-178 | the switch keeps A*B with its timers and excludes B-A |
| Mld2.BlockOnExclude | src/mld2_logic.c:253-271 | which timers BLOCK moves, and how many NULL nodes it leaves |
| Rfc3810.HandleIsCodeRow | src/mld2_logic.c:128-272 | for every record, report and time the list code computes one row on sets and timer maps |
| Rfc3810.TableRefinement | src/mld2_logic.c:128-272 | that row is the row of RFC 3810 sections 7.4.1, 7.4.2 and 7.6.3.2 if and only if RowHolds |
| Rfc3810.QueriesAreRfc | src/mld2_logic.c:136-142 | the queries sent are those of the RFC row in every case |
| Rfc3810.QueriesOnce | src/ecmh.c:543-555 | on duplicate-free lists no query is sent twice |
| Deviations.OfInclude | src/mld2_logic.c:128-190 | every INCLUDE row, source by source, for every record: who is requested, with which timer, who is excluded; D5 |
| Deviations.AskedOfExclude | src/mld2_logic.c:192-212 | the EXCLUDE row for reports that ask for sources, source by source, for every record; D1 and D2 |
| Deviations.NamedToExclude | src/mld2_logic.c:214-251 | the EXCLUDE row for exclude reports, source by source, for every record; D3 |
| Deviations.BlockedOfExclude | src/mld2_logic.c:253-271 | the EXCLUDE row for BLOCK, source by source, for every record; D4 and D5 |
| Deviations.StaysExcluded | src/mld2_logic.c:194 | D1 on a run: the source asked for is excluded in the code, not in the standard |
| Deviations.IsLetIn | src/mld2_logic.c:194 | D1 the other way round: an excluded source nobody asked for is let in |
| Deviations.IsRefreshed | src/mld2_logic.c:196-197 | D2 on a run: both outcomes, timer by timer |
| Deviations.IsNotRequested | src/mld2_logic.c:218-243 | D3 on a run: both outcomes |
| Deviations.LeavesNull | src/linklist.c:143-153 | D4 on a run: both outcomes, and the NULL node |
| Deviations.IsProlonged | src/mld2_logic.c:180-190 | D5 on a run: the query raises a timer that the standard leaves alone |
| Lease.HandleShaped | src/mld2_logic.c:128-272 | every transition keeps both lists duplicate-free and sets the mode of the table |
| Lease.SweepOnState | src/mld2_logic.c:55-80 | what a sweep leaves of a record, on sets and timers |
| Lease.TouchOnState | src/ecmh.c:1501-1525 | a packet removes at most one source, an expired one, or switches an expired EXCLUDE record |
| Lease.GuardedInv | src/mld2_logic.c:114-286 | in every guarded run each lease is covered by a timer or by the filter timer |
| Lease.LeaseSafety | src/mld2_logic.c:114-286 | all six record types, sweeps and packets: if the reports pass the guard, every lease is honoured at every point |
| Lease.LeaseExact | src/mld2_logic.c:191-271 | for every run, leases are honoured at every point if and only if every report passes the guard, a test on the reports so far and the record they left |
| Lease.RecordGuardExact | src/mld2_logic.c:191-251 | without BLOCK records the test needs the record alone, and is exact as well |
| Lease.LeaseCanBreak | src/mld2_logic.c:194 | a two-report run whose second lease is not served |
| Lease.LeaseLength | src/mld2.h:3-19 | a report serves its source for exactly 260 seconds, a leave message leaves it exactly 2 |
| Lease.DisjointExact | src/mld2_logic.c:192-212 | a transition keeps X and Y disjoint exactly when no excluded source is asked for |
| Lease.ReachableDisjoint | src/mld2_logic.c:128-272 | X and Y are disjoint in every state of a run if and only if no report clashes |
| Lapse.RunBounded | src/mld2_logic.c:128-272 | no timer that matters runs beyond the last report plus MALI |
| Lapse.BoundedLapse | src/mld2_logic.c:36-82 | after the last report, whatever packets and sweeps follow, the second sweep at or after last report plus MALI has removed the record if and only if it holds no NULL node and is not an empty INCLUDE record; in any case nothing is let through |
| Lapse.NullsExact | src/mld2_logic.c:253-271 | on every run a record holds NULL nodes if and only if a BLOCK met it in EXCLUDE mode and named a source outside X and Y, and no report since has rebuilt the list |
| Lapse.NoBlockNoNulls | src/linklist.c:104-127 | without BLOCK records there are no NULL nodes |
| Lapse.NoBlockLapse | src/mld2_logic.c:36-82 | so, without BLOCK records, every record in EXCLUDE mode or with a source is gone after two late sweeps |
| Lapse.OneSweepIsNotEnough | src/mld2_logic.c:74-77 | a run after which one such sweep leaves the record |
| Lapse.StuckRecords | src/mld2_logic.c:17 | both exceptions are reachable |
| Lapse.HandleAlike | src/mld2_logic.c:128-272 | records that differ in hidden state only are handled alike and ask the same queries |
| Lapse.ExpiryAlike | src/mld2_logic.c:357-370 | they also expire alike and give the same verdicts |
| GrpInt.SendMQuery | src/ecmh.c:543-555 | one query per source, in list order |
| GrpInt.GrpIntNode.constructor | src/grpint.c:12-35 | a new record is INCLUDE of nothing with an unset filter timer |
| GrpInt.GrpIntNode.IncludeOnInclude | src/mld2_logic.c:129-144 | the pointer code computes the INCLUDE row for IS_IN, ALLOW and TO_IN |
| GrpInt.GrpIntNode.ExcludeOnInclude | src/mld2_logic.c:146-178 | the pointer code computes the switch to EXCLUDE |
| GrpInt.GrpIntNode.BlockOnInclude | src/mld2_logic.c:180-190 | the pointer code computes the INCLUDE row for BLOCK |
| GrpInt.GrpIntNode.IncludeOnExclude | src/mld2_logic.c:192-212 | the pointer code computes the EXCLUDE row for IS_IN, ALLOW and TO_IN, D1 and D2 included |
| GrpInt.GrpIntNode.ExcludeOnExclude | src/mld2_logic.c:214-251 | the pointer code computes the EXCLUDE row for IS_EX and TO_EX, D3 included |
| GrpInt.GrpIntNode.BlockOnExclude | src/mld2_logic.c:253-271 | the pointer code computes the EXCLUDE row for BLOCK, D4 included |
| GrpInt.GrpIntNode.HandleReport | src/mld2_logic.c:114-286 | for every record on the heap and every report the new value and the queries are those of Mld2 |
| GrpInt.GrpIntNode.ExpireIncludes | src/mld2_logic.c:59-70 | the loop over the include list of a record on the heap, and when the record is to go |
| GrpInt.GrpIntNode.ExpireMember | src/ecmh.c:1501-1508 | finding a packet's source in the include list and expiring it, on the heap |
| GrpInt.GrpIntNode.SwitchToInclude | src/mld2_logic.c:357-366 | the mode changes, everything else stays, and the emptiness test |
| GrpInt.GrpIntNode.Verdict | src/kernel_routing.c:130-153 | the body of check_route on a heap record |
| McastClient.FillSources | src/mcast_client.c:93-115 | the array handed to the kernel: the addresses in order, then zero entries for NULL nodes |
| Groups.GroupNode.FindRecord | src/grpint.c:48-58 | the first record of the interface, by walking the list |
| Groups.GroupNode.CallsForRecord | src/mld2_logic.c:310-336 | the calls made for one heap record are those of Views.CallsFor |
| Groups.GroupNode.HandleReport | src/mld2_logic.c:114-286 | the transition of one record leaves the other records of the group as they are |
| Groups.GroupNode.Remove | src/mld2_logic.c:101-104 | exactly the given record leaves the list |
| Table.ReportMeaning | src/groups.c:77-123 | a report reaches the one record of its group and interface, made if missing, and no other |
| Table.ReportKeyed | src/groups.c:77-123 | keys stay unique on both levels |
| Table.SweepMeaning | src/mld2_logic.c:36-82 | the sweep of the table is the sweep of every record, groups without records are gone, keys stay unique |
| Table.ForwardMeaning | src/ecmh.c:1473-1538 | the forwarder leaves a record alone or touches it, in the packet's group only |
| Table.TableIsRecords | src/mld2_logic.c:36-286 | over every run keys are unique and each record has lived through exactly its own events |
| Table.TableLeaseSafety | src/mld2_logic.c:114-286 | lease safety for any record of the table, whatever happens to the others |
| Table.TableLeaseExact | src/mld2_logic.c:114-286 | and exactly so: at every point of a run of the table, if and only if the record's own reports pass the guard |
| Table.TableBoundedLapse | src/mld2_logic.c:36-82 | two late sweeps remove a record that is no longer reported, whatever else happens in the table, if and only if it was not stuck |
| Table.TableNoBlockLapse | src/mld2_logic.c:36-82 | the same for a record of the table, whatever happens to the others |
| Table.GroupLapse | src/mld2_logic.c:101-111 | and the group is gone if and only if none of its records was stuck |
| Views.CheckRouteMeaning | src/kernel_routing.c:111-158 | check_route is the verdict of the one record concerned |
| Views.FastPathIsSlowPath | src/ecmh.c:1473-1538 | a packet from upstream is forwarded downstream if and only if check_route says so and the record is not down to one expired source |
| Views.ForwardExact | src/ecmh.c:1488-1538 | any number of interfaces: the packet goes out on the first record that lets it through, unless its last source expires then; exactly the records up to there are touched |
| Views.SoleExpiredMeaning | src/mld2_logic.c:12-34 | when expiring the packet's source empties the record |
| Views.CallsForMeaning | src/mld2_logic.c:310-336 | the join and filter calls for one record let in what the record wants |
| Views.UpstreamMeaning | src/mld2_logic.c:305-338 | one subscription per group with a record that is not an empty INCLUDE, letting in exactly what the record wants |
| Views.RoutesAreRequested | src/kernel_routing.c:111-158 | whatever is routed downstream has been requested upstream |
| Views.AlikeTablesLookTheSame | src/kernel_routing.c:130-153 | tables that differ in hidden state only give the same verdicts, requests and forwarding decisions |
| Views.AlikeTablesStay | src/mld2_logic.c:128-190 | and they stay that way through every step |
| Views.HiddenNeverMatters | src/grpint.c:12-35 | from any two tables that differ in hidden state only, runs that differ in uninitialised memory only send the same queries and packets and give the same verdicts and upstream requests at every point |
| Views.FromAfter | src/mld2_logic.c:36-286 | steps from a table that a run has reached continue that run |
| Splices.GotThenHandled | src/groups.c:77-123 | find-or-create followed by the transition is one step of the table |
| GroupList.GroupTable.FindGroup | src/groups.c:60-70 | the first group with the address, by walking the list |
| GroupList.GroupTable.Get | src/groups.c:77-123 | find or create on both levels; the record returned is the one of the group and interface, everything else is as before |
| GroupList.GroupTable.UpstreamCalls | src/mld2_logic.c:305-338 | the two loops collect exactly Views.Calls |
| ConfState.Conf.HandleUpstream | src/mld2_logic.c:288-354 | the calls on the fresh socket, then expire_routes: every installed route that check_route wants stays, and whatever goes has no record on the downstream interface that lets its source through; the list still mirrors the kernel |
| GroupList.GroupTable.RemoveGrpInt | src/mld2_logic.c:101-111 | one record leaves its list, and the group leaves the global list with its last record |
| Splices.FitsAfterRebuild | src/mld2_logic.c:288-354 | after renewal the upstream side fits: all wants requested, no group joined without a record that wants something |
| Splices.CallsWithout | src/mld2_logic.c:314-318 | a record without sources makes no upstream calls |
| ConfState.Conf.RemoveAndRenew | src/mld2_logic.c:17-32 | record and group go, and the upstream calls of its interface are those of the table without it |
| ConfState.Conf.SwitchRecord | src/mld2_logic.c:357-370 | switch to INCLUDE, upstream renewed, record removed when it has no includes; which nodes have gone |
| ConfState.Conf.ExpireIncludes | src/mld2_logic.c:59-70 | the sweep of an INCLUDE record on its own list; the upstream side is renewed exactly when the record goes |
| ConfState.Conf.ExpireGroup | src/mld2_logic.c:55-80 | loop_interface over the heap list, stepping from copied nodes and breaking off when the group goes, equals the sweep of the group |
| ConfState.Conf.ExpireSources | src/mld2_logic.c:36-82 | the three nested delete-while-iterating loops over heap lists equal the pure sweep, visiting each element once; the upstream side still fits, and no route goes that was wanted before and is wanted after |
| Routes.KeepsThrough | src/kernel_routing.c:186-208 | route expiry in the middle of a loop that changes each record once never removes a route wanted at both ends |
| ConfState.Conf.HandleDownstream | src/mld2_logic.c:114-286 | find or create, then the transition on the record's own lists: one step of the table; the queries are those of RFC 3810 for the record found |
| ConfState.Conf.RenewTwice | src/ecmh.c:1337-1341 | the upstream side is renewed and routes expire in two passes, which keep what is wanted and delete only what is not |
| ConfState.Conf.ReceiveReport | src/ecmh.c:1229-1344 | from the bytes of a packet to the new table, record by record; each record is answered with the queries of RFC 3810; the upstream calls; which routes stay and which go |
| ConfState.FirstInclude | src/ecmh.c:1314 | a report with wire type 1 for one source makes an INCLUDE record of that source |
| ConfState.FirstExclude | src/ecmh.c:1314 | a report with wire type 2 makes an EXCLUDE record that keeps the source out for 260 seconds |
| GroupList.GroupTable.CheckRoute | src/kernel_routing.c:111-158 | the two loops with early returns compute Views.CheckRoute |
| ConfState.Conf.Upcall | src/kernel_routing.c:73-104 | a route is installed exactly when it is routable and wanted at that moment; the list mirrors the kernel |
| ConfState.Conf.ExpireSource | src/mld2_logic.c:12-34 | expiry of a packet's source on the heap, removing source, record and group as needed |
| ConfState.Conf.ForwardGroup | src/ecmh.c:1488-1538 | the forwarding loop over the heap list, stepping from copied nodes while records go, and its breaks |
| ConfState.Conf.Multicast | src/ecmh.c:1434-1538 | packets that fail the address checks change nothing; for the others the table and the interface are those of Table.Forward, and the upstream side still fits |
| ConfState.Conf.ForwardPacket | src/ecmh.c:1434-1538 | from the bytes of the IPv6 header: between two interfaces the packet is sent on if and only if the header passes the checks and the record lets the source through and is not down to it, expired |
| Packets.ForwardableBytes | src/ecmh.c:1454-1459 | the address checks on the bytes of the header |
| Packets.AddressTests | src/ecmh.c:1272-1273 | the multicast, local-scope, link-local and unspecified tests on the bytes of an address |
| Packets.AddrByte | src/ecmh.c:1317-1320 | addresses are read in network byte order |
| Routes.PassMeaning | src/kernel_routing.c:186-208 | one pass keeps every wanted route, the order, and at most half of the stale routes |
| Routes.PassIsSlow | src/kernel_routing.c:199-204 | of n stale routes in a row exactly n/2 survive |
| Routes.Convergence | src/kernel_routing.c:186-208 | floor(log2 n)+1 passes over n stale routes leave exactly the wanted ones |
| Routes.ConvergenceIsTight | src/kernel_routing.c:186-208 | fewer passes do not do when all routes are stale |
| Routes.MRouter.constructor | src/kernel_routing.c:19-35 | an empty list mirrors an empty forwarding cache |
| Routes.MRouter.HaveRoute | src/kernel_routing.c:172-185 | finds a saved route if and only if it is there |
| Routes.MRouter.Upcall | src/kernel_routing.c:73-104 | a route is installed and saved, once, exactly when it is routable and check_route of the group lists wants it |
| Routes.MRouter.ExpireRoutes | src/kernel_routing.c:186-208 | the pointer loop computes one pass and keeps the mirror; every route check_route wants stays, and every route that goes it refuses |
| Routes.RefusedMeaning | src/kernel_routing.c:111-158 | a refused route has no record on the interface, or one that does not let its source through |
| Routes.RoutesConverge | src/kernel_routing.c:186-208 | enough passes leave exactly the installed routes that check_route wants |
| Checksum.InChksum | src/ecmh.c:81-98 | the folded sum is the one's-complement sum of the words |
| Checksum.TwoFolds | src/ecmh.c:123-125 | two carry folds are enough for three folded parts |
| Checksum.Ipv6Checksum | src/ecmh.c:101-130 | the separately folded parts give the complement of the sum of the whole RFC 8200 section 8.1 message |
| Checksum.Matches | src/ecmh.c:1578-1585 | clear, recompute and compare succeeds if and only if the field is not zero and the sum including it is 0 modulo 65535 |
| Checksum.SentMessagesMatch | src/ecmh.c:520-522 | a message sent with the computed checksum passes that comparison |
| Checksum.WireChecksum | src/ecmh.c:81-98 | the bytes left on the wire are the checksum defined in network byte order |
| Reports.ReadSourceList | src/ecmh.c:1317-1324 | the source loop adds each new address once to a heap list, in order, with timer 0 |
| Reports.SourcesOnce | src/mrec.c:78-108 | the source list of a record is duplicate-free, for any bytes |
| Reports.ParsedIsClean | src/ecmh.c:1269-1310 | no record with a repeated source or a local-scope group is applied, for any bytes |
| Reports.NextRecord | src/ecmh.c:1269-1329 | one round of the loop computes one step of Parse, with the code's order of checks, and builds the source list on the heap |
| Reports.ParseInvertsWrite | src/ecmh.c:1234-1335 | of an encoded list of records, auxiliary bytes included, the longest prefix of known types and allowed scope is applied, with those types, in order and de-duplicated, and a full parse ends at the payload end |
| Reports.KnownTypes | src/mld.h:51-68 | types 1 to 6 are the six record types, no other byte is one |
| Reports.ParsedInside | src/ecmh.c:1299-1329 | for any bytes, a record is applied with the group, type and addresses at its offset, all inside the payload |
| Reports.ParseStops | src/ecmh.c:1269-1308 | for any bytes, a report ends early only for one of the four reasons |
| Reports.AuxWordsEndReport | src/ecmh.c:1333 | auxiliary data counted in words, as the standard has it, makes the handler look for the next record inside the data |
| Mship.SubscribeFrame | src/mship_db.c:168-234 | one record per group, and other groups untouched |
| Mship.MergeExact | src/mship_db.c:168-234 | a merge has the meaning of a union if and only if no EXCLUDE meets an INCLUDE record with other sources |
| Mship.MergeDeviates | src/mship_db.c:212 | D6 for all inputs: such a merge lets in all but the sources both sides wanted |
| Mship.MergeMeaning | src/mship_db.c:168-234 | over every history the record lets in what some subscription wants, at every point, if and only if all merges are of that kind |
| Mship.OrderIndependent | src/mship_db.c:168-234 | then the order of subscriptions does not matter |
| Mship.MergeCanFail | src/mship_db.c:212 | D6 on two subscriptions |
| Mship.MembershipDb.Find | src/mship_db.c:107-118 | the first record for the group in the mode, or in any mode |
| Mship.MembershipDb.Add | src/mship_db.c:168-234 | the database object computes Subscribe |

## Left out

- ConfState.Conf.Multicast: takes interfaces that `int_find` knows; packet counters of the group are not kept.
- The 32-bit width of `filter_timer` and of the timer argument of `set_source_timers`: times are integers, so the model ends where the epoch passes 2^32 seconds minus MALI.
- Whether a query leaves the machine: `mld_send_query` drops it on upstream interfaces; the model records what is handed to it.
- How the kernel reads `gf_fmode`, and failures of socket calls and of memory allocation.
- MLDv1 reports and reductions, the bytes of the packets that the daemon itself builds, tunnels, interface discovery, signals, logging and statistics.
- `mdb_deepcopy`, list destruction and freeing order: they add copies and frees but no new behaviour of the state machine.
- The membership database keeps its records in a sequence that `mdb_subscribe` reassigns; sharing of source lists between records and callers is not captured there.
