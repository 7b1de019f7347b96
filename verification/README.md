# Xen 3.4 page allocator, FLASK access-vector cache and SRAT NUMA tables

A Dafny model of three sequential parts of the Xen 3.4 hypervisor:

- **The page-frame allocator** in `xen/common/page_alloc.c`:
  - the boot-time allocation bitmap (`map_alloc`, `map_free`, `init_boot_pages`, `alloc_boot_pages`);
  - the zone classifier;
  - the binary buddy heap, whose free lists are indexed by node, zone and order and kept next to the `avail` counters;
  - the per-page offline state machine (online, offlining, offlined, broken);
  - heap initialisation and counting;
  - the domain-heap layer: ownership, quota and the scrub queue.
- **The FLASK access-vector cache (AVC)** in `xen/xsm/flask/avc.c`:
  - a hash table of access decisions keyed by (source SID, target SID, class);
  - lookup, insertion guarded by sequence numbers, reclaim, policy-change updates and reset;
  - the permission check and the audit decision.
- **SRAT/SLIT bookkeeping** in `xen/arch/x86/srat.c`, following the System Resource Affinity Table and System Locality Information Table of ACPI 3.0 (sections 5.2.15 and 5.2.16):
  - the map from proximity domains to nodes;
  - the node memory ranges, with overlap detection, hull merging and clipping;
  - SLIT validation, the memory-coverage check, minimum-size pruning and node distances.

Every state is an immutable value, and every operation is a function or method that returns the new state.

- **Buddy heap (module `Heap`):**
  - the set of free frames;
  - the free lists `map<ListKey, seq<nat>>`;
  - `PFN_ORDER` as a map;
  - `avail` as `map<(node, zone), nat>`;
  - the page flags;
  - the owner map;
  - the frames that need a TLB flush;
  - the offlined and broken lists.
- **`Valid`** ties these together:
  - every free-list head heads an aligned block of free frames of its order;
  - blocks are disjoint and cover exactly the free set;
  - each counter equals the number of free frames of its node and zone.
- **Frame numbers** are unbounded naturals. Where the source's `unsigned long` arithmetic matters, it is written out (`Boot.NextAsWritten`, `Srat.Wrap`).
- **Access vectors** are sets of permission names rather than 32-bit masks.

Modules:

| module | file | models |
|---|---|---|
| `Arith` | arith.dfy | powers of two, alignment, `fls` |
| `Options` | options.dfy | `Option` |
| `Zones` | zones.dfy | `bits_to_zone`, `page_to_zone` |
| `Bitmap` | bitmap.dfy | `map_alloc`, `map_free` per frame and on 64-bit words |
| `Boot` | boot.dfy | `init_boot_allocator`, `init_boot_pages`, `alloc_boot_pages` |
| `Blocks` | blocks.dfy | buddy blocks: spans, buddies, parents |
| `Heap` | heap.dfy | heap state, list operations, the `Valid` invariant |
| `HeapAlloc` | alloc.dfy | `alloc_heap_pages` |
| `HeapFree`, `ReserveSample` | free.dfy | `free_heap_pages`, `reserve_offlined_page` |
| `HeapOffline` | offline.dfy | `mark_page_offline`, `reserve_heap_page`, `offline_page`, `online_page`, `query_page_offline` |
| `HeapInit` | init.dfy | `init_heap_pages`, `avail_heap_pages`, `end_boot_allocator` |
| `DomHeap` | domheap.dfy | `assign_pages`, `alloc_domheap_pages`, `free_domheap_pages`, the scrub queue |
| `Avc` | avc.dfy | the access-vector cache |
| `Srat` | srat.dfy | SRAT and SLIT bookkeeping |

## Model

| member | source | states |
|---|---|---|
| Zones.PageToZone | xen/common/page_alloc.c:270-271 | a Xen-heap page is in zone 0; otherwise the zone of frame f ≥ 1 is the z with 2^z ≤ f < 2^(z+1), and frame 0 gives -1 |
| Zones.ZoneRange | xen/common/page_alloc.c:270-271 | the zone of a frame is z exactly when 2^z ≤ f < 2^(z+1) |
| Zones.ZoneMonotone | xen/common/page_alloc.c:270-271 | higher frames never have lower zones |
| Zones.BitsToZoneAddressable | xen/common/page_alloc.c:269 | a frame is in a zone no higher than `bits_to_zone(b)` exactly when it is addressable with b address bits |
| Bitmap.MapAlloc | xen/common/page_alloc.c:105-131 | on a wholly free range, exactly the frames of [first, first+nr) become allocated and every other frame is unchanged |
| Bitmap.MapFree | xen/common/page_alloc.c:133-159 | on a wholly allocated range, exactly the frames of [first, first+nr) become free and every other frame is unchanged |
| Bitmap.MapFreeThenAlloc | xen/common/page_alloc.c:105-159 | freeing and then allocating the same allocated range restores the bitmap |
| Bitmap.MapAllocThenFree | xen/common/page_alloc.c:105-159 | allocating and then freeing the same free range restores the bitmap |
| Bitmap.MapAllocWords | xen/common/page_alloc.c:105-131 | the word-mask version sets exactly the bits of the range across first, middle and last words |
| Bitmap.MapFreeWords | xen/common/page_alloc.c:133-159 | the word-mask version clears exactly the bits of the range |
| Bitmap.MapAllocRefines | xen/common/page_alloc.c:105-131 | the word-mask `map_alloc` agrees with the per-frame one |
| Bitmap.MapFreeRefines | xen/common/page_alloc.c:133-159 | the word-mask `map_free` agrees with the per-frame one |
| Boot.InitBootAllocator | xen/common/page_alloc.c:170-189 | the boot bitmap starts with every frame allocated |
| Boot.InitBootPages | xen/common/page_alloc.c:191-235 | the whole frames inside [ps, pe) become free, except bad pages below max_page; first_valid_mfn drops to the range's first frame; an empty range changes nothing |
| Boot.InitBootPagesOK | xen/common/page_alloc.c:191-235 | registering a range keeps the boot allocator's invariant |
| Boot.AllocBootPages | xen/common/page_alloc.c:237-258 | returns the highest aligned base ≥ first_valid_mfn whose nr frames are all free and allocates that run; with no such run it returns 0 and changes nothing |
| Boot.AllocBootTakes | xen/common/page_alloc.c:237-258 | after a boot allocation the run is allocated, the invariant holds, and freeing the run restores the bitmap |
| Boot.RegisteredRunFits | xen/common/page_alloc.c:191-258 | a freshly registered range without bad pages can be handed out whole by `alloc_boot_pages` |
| Boot.StepWrapsAsWritten | xen/common/page_alloc.c:243-245 | the loop step as written wraps past zero to a base beyond max_page that still passes the loop test |
| Boot.StartWrapsAsWritten | xen/common/page_alloc.c:243 | a request larger than max_page starts the search as written beyond max_page |
| HeapAlloc.FindZone | xen/common/page_alloc.c:364-375 | the zone scan from zone_hi down returns the highest zone with a big enough block and counter, and says none exists otherwise |
| HeapAlloc.FindNode | xen/common/page_alloc.c:362-380 | the node ring returns the first node, in ring order from the requested one, that can serve the request, and none exactly when no node on the ring can |
| HeapAlloc.AllocFails | xen/common/page_alloc.c:353-385 | allocation fails, leaving the heap untouched, exactly when order > MAX_ORDER or no node on the ring from the requested one has a suitable block in zones zone_lo..zone_hi |
| HeapAlloc.RingCoversOnline | xen/common/page_alloc.c:362-380 | started from an online node, the first num_online_nodes() steps of the ring visit every online node |
| HeapAlloc.AllocFailsOnline | xen/common/page_alloc.c:353-385 | from an online node, allocation fails exactly when order > MAX_ORDER or no online node has a suitable block in zones zone_lo..zone_hi |
| HeapAlloc.OfflineStartSkips | xen/common/page_alloc.c:362-380 | started from an offline node, the ring can miss an online node: from node 5 with nodes 0 and 1 online, node 1 is never tried |
| HeapAlloc.AllocSplits | xen/common/page_alloc.c:387-398 | the found block leaves its list, each lower half of orders j-1 down to order joins its list, and the caller gets the highest 2^order chunk |
| HeapAlloc.AllocHeapPages | xen/common/page_alloc.c:336-429 | fails exactly when nothing is found, and then changes nothing; on success the TLB-flush flag is set exactly when some returned frame needs one |
| HeapAlloc.AllocValid | xen/common/page_alloc.c:387-429 | allocation keeps the heap valid; the aligned chunk was free; exactly 2^order frames leave the free set; only that node and zone's counter drops, by 2^order |
| HeapFree.FreeHeapPages | xen/common/page_alloc.c:507-586 | every offlining page of the span becomes offlined and nothing else's flags change; pages owned before freeing need a TLB flush |
| HeapFree.MergeInv | xen/common/page_alloc.c:545-580 | the buddy-merge loop keeps the heap's block invariant, with the merged block as the one span not yet on a list, and keeps free frames outside the exempt set free of offline marks |
| HeapFree.MergeAligned | xen/common/page_alloc.c:545-580 | the block inserted after merging is aligned to its final order |
| HeapFree.FreeValid | xen/common/page_alloc.c:507-586 | freeing a returnable block keeps the heap valid; its untainted frames join the free set and the counter rises by their number; offlined frames are withheld |
| HeapFree.WithholdFree | xen/common/page_alloc.c:486-501 | withholding takes every offlined frame of the block out of the free set and drops `avail` by the number withheld, for that node and zone only |
| HeapFree.WithholdLists | xen/common/page_alloc.c:486-501 | each withheld frame goes on the broken list if broken and on the offlined list otherwise |
| HeapFree.ReserveOfflinedPage | xen/common/page_alloc.c:432-504 | reserving never changes flags, owners or the TLB-flush set |
| HeapFree.ReserveValid | xen/common/page_alloc.c:432-504 | the corrected carving re-inserts every non-offlined frame of the block into aligned free blocks and withholds the offlined ones |
| ReserveSample.ReserveAsWrittenMisaligns | xen/common/page_alloc.c:444-484 | the carving as written puts frame 5 on the order-1 list, unaligned, and the heap is no longer valid |
| HeapOffline.MarkPageOffline | xen/common/page_alloc.c:600-633 | offlined and broken is a fixed point; an offlined page can only gain broken; any other page becomes offlining if allocated or offlined if free; broken is added when requested; the old flags are returned |
| HeapOffline.MarkMonotone | xen/common/page_alloc.c:600-633 | marking never clears a flag and always leaves the page offlining or offlined |
| HeapOffline.ReserveHeapPage | xen/common/page_alloc.c:635-658 | with no free block containing the page it fails; otherwise flags and owners are unchanged |
| HeapOffline.ReserveHeapPageFinds | xen/common/page_alloc.c:635-658 | a free offlined page always lies in a listed free block of its node and zone, all of whose frames are free, and the list search stops at that block |
| HeapOffline.FindHeadFinds | xen/common/page_alloc.c:641-653 | the search of the page's node and zone lists, from order 0 upward, returns exactly the free block that holds the page |
| HeapOffline.ReserveHeapPageValid | xen/common/page_alloc.c:635-658 | reserving a free offlined page keeps the heap valid and withholds exactly that page |
| HeapOffline.OfflinePage | xen/common/page_alloc.c:660-745 | with the corrected range check (mfn < max_page): succeeds exactly for a conventional RAM frame in the table that is not Xen-fixed; the status says offlined exactly when the page was free or already offlined, and broken exactly when requested |
| HeapOffline.OfflineFrame | xen/common/page_alloc.c:674-745 | past the range check: a Xen-fixed frame gives -EPERM with the XENPAGE and FAILED bits and owner DOMID_XEN, a frame that is not conventional RAM gives -EINVAL with FAILED and NOT_CONV_RAM, and otherwise it succeeds with a status |
| HeapOffline.OfflinePageAsWritten | xen/common/page_alloc.c:667-672 | with the range check as written (mfn > max_page rejected): a status is returned exactly when the frame passes that check, and success exactly when it also is conventional RAM and not Xen-fixed |
| HeapOffline.OfflineAsWrittenPastTable | xen/common/page_alloc.c:667-672 | for mfn = max_page the corrected check returns -EINVAL with no status, while the check as written goes on: success for a conventional frame, -EINVAL with FAILED and NOT_CONV_RAM otherwise |
| HeapOffline.GuardsAgree | xen/common/page_alloc.c:667-672 | for every frame other than max_page, the range checks as written and corrected give the same offline, online and query results |
| HeapOffline.OfflineFreeValid | xen/common/page_alloc.c:660-745 | offlining a free page keeps the heap valid, removes just that frame and drops its counter by one |
| HeapOffline.OfflineAllocatedValid | xen/common/page_alloc.c:660-745 | offlining an allocated page only marks it and leaves the free set and counters alone |
| HeapOffline.OnlineFrame | xen/common/page_alloc.c:763-791 | a broken page fails with FAILED and BROKEN; an offlined or offlining page reports ONLINED; any other page reports nothing and stays online |
| HeapOffline.OnlinePage | xen/common/page_alloc.c:752-792 | a frame outside the table fails with -EINVAL and no status |
| HeapOffline.OnlineValid | xen/common/page_alloc.c:774-789 | onlining a withheld offlined page frees it at order 0; the heap stays valid and its counter rises by one |
| HeapOffline.OnlineAsWrittenPastTable | xen/common/page_alloc.c:757-763 | the range check as written admits max_page itself and reports success |
| HeapOffline.QueryPageOffline | xen/common/page_alloc.c:794-819 | with the corrected range check (mfn < max_page): succeeds exactly for a conventional frame in the table, and otherwise returns -EINVAL |
| HeapOffline.QueryPageOfflineAsWritten | xen/common/page_alloc.c:798-802 | with the range check as written (mfn > max_page rejected): succeeds, with a status, exactly for a conventional frame that passes that check |
| HeapOffline.QueryAsWrittenPastTable | xen/common/page_alloc.c:798-802 | for mfn = max_page marked conventional, the check as written reports success although the frame is outside the table; the corrected check returns -EINVAL |
| HeapOffline.QueryAfterOffline | xen/common/page_alloc.c:660-819 | after a successful offline, a query reports offlined or pending, broken as requested, and offlined exactly as the offline status said |
| HeapOffline.QueryAfterOnline | xen/common/page_alloc.c:752-819 | after onlining a page that is not broken, a query reports neither offlined nor pending |
| HeapInit.InitHeapPages | xen/common/page_alloc.c:827-863 | initialising a range changes only the flags inside it and no owner |
| HeapInit.InitValid | xen/common/page_alloc.c:827-863 | the heap stays valid and gains exactly the kept frames of the range, those not withheld at a node boundary |
| HeapInit.AvailHeapPagesCounts | xen/common/page_alloc.c:865-884 | the sum of counters equals the number of free frames in the zone range and on the node (or on every online node) |
| HeapInit.DomheapFrames | xen/common/page_alloc.c:887-928 | the frames `end_boot_allocator` hands to the heap are exactly the free boot frames up to max_page that are not Xen heap |
| HeapInit.BootRunsValid | xen/common/page_alloc.c:893-910 | feeding the runs of free frames to `init_heap_pages` keeps the heap valid and adds exactly their kept frames |
| HeapInit.EndBootValid | xen/common/page_alloc.c:887-928 | after the boot allocator ends, the heap is valid and holds exactly the boot-free frames below max_page that are not at node boundaries |
| HeapInit.DmaBitsAfterBoot | xen/common/page_alloc.c:912-922 | with several nodes and no `dma_bits` option, the DMA width is 9 plus the bit length of node 0's span, clamped to 32 |
| DomHeap.AssignPages | xen/common/page_alloc.c:1106-1154 | succeeds exactly when the domain is alive and within its quota; then it appends the pages, counts them unless MEMF_no_refcount is set and records the owner; on failure nothing changes |
| DomHeap.AssignCounted | xen/common/page_alloc.c:1106-1154 | assignment keeps the page count equal to the number of owned pages |
| DomHeap.AssignThenRelease | xen/common/page_alloc.c:1106-1154 | releasing freshly assigned pages restores the domain |
| DomHeap.HeapAttempt | xen/common/page_alloc.c:1173-1179 | tries the zones above the DMA limit first and then all zones; it fails, changing nothing, exactly when both searches find nothing |
| DomHeap.AllocDomheapPages | xen/common/page_alloc.c:1157-1188 | a failed allocation leaves domains and scrub queue alone; an address width too small for any zone fails immediately |
| DomHeap.AllocDomheapAssigns | xen/common/page_alloc.c:1157-1188 | on success the pages are assigned to the requesting domain, or left anonymous when there is none |
| DomHeap.AllocDomheapValid | xen/common/page_alloc.c:1157-1188 | the heap stays valid, and on success exactly 2^order free frames are taken |
| DomHeap.FreeDomheapPages | xen/common/page_alloc.c:1190-1256 | Xen-heap pages leave the heap alone; anonymous pages go straight to the buddy heap; owned pages are released from their domain, which is dropped when its count reaches 0 |
| DomHeap.FreeDomheapValid | xen/common/page_alloc.c:1190-1256 | freeing keeps the heap and scrub queue valid; a dying domain's pages go to the scrub queue, others back to the free set |
| DomHeap.ScrubBatch | xen/common/page_alloc.c:1340-1366 | one scrub batch frees the first 16 queued pages (fewer when the queue is shorter) of the queue at order 0, except offlining ones; the rest stay queued |
| Avc.Hash | xen/xsm/flask/avc.c:128-131 | the hash is always a slot below 512 |
| Avc.SearchNode | xen/xsm/flask/avc.c:375-403 | finds an entry exactly when the key is cached, returns that key's decision and leaves the cache contents unchanged |
| Avc.Lookup | xen/xsm/flask/avc.c:418-435 | returns an entry exactly when the key is cached and its decided vector covers every requested permission |
| Avc.NotifUpdate | xen/xsm/flask/avc.c:437-461 | on insert, rejects seqno < latest with -EAGAIN and leaves latest alone; otherwise latest becomes max(latest, seqno) |
| Avc.NotifMonotone | xen/xsm/flask/avc.c:437-461 | the latest notification number never decreases |
| Avc.AllocNode | xen/xsm/flask/avc.c:345-365 | allocating a node counts it and reclaims only when the threshold is exceeded |
| Avc.AllocValid | xen/xsm/flask/avc.c:345-365 | after allocation the node count still matches the cache, and cached decisions are unchanged |
| Avc.ReclaimNode | xen/xsm/flask/avc.c:311-343 | removes at most 16 entries and lowers the node count by exactly the number removed |
| Avc.ReclaimValid | xen/xsm/flask/avc.c:311-343 | reclaim keeps the cache valid, changes no surviving decision, and removes only entries whose used counter was 1 |
| Avc.Insert | xen/xsm/flask/avc.c:480-511 | refuses a stale seqno; otherwise the key's decision is the new one and every other key is as after node allocation |
| Avc.InsertValid | xen/xsm/flask/avc.c:480-511 | after insertion the key occurs exactly once in its slot and the cache stays valid |
| Avc.ApplyAllowed | xen/xsm/flask/avc.c:666-672 | GRANT adds the permissions to `allowed`; TRY_REVOKE and REVOKE remove them; the audit vectors stay |
| Avc.ApplyAuditAllow | xen/xsm/flask/avc.c:673-678 | the AUDITALLOW events set or clear the permissions in `auditallow` only |
| Avc.ApplyAuditDeny | xen/xsm/flask/avc.c:679-684 | the AUDITDENY events set or clear the permissions in `auditdeny` only |
| Avc.GrantThenRevoke | xen/xsm/flask/avc.c:666-672 | revoking what was granted leaves `allowed` minus those permissions, and the original entry when none was allowed before |
| Avc.UpdateNode | xen/xsm/flask/avc.c:625-691 | returns -ENOENT exactly when the key is absent; otherwise the key's decision is the event applied to it and other keys are unchanged |
| Avc.UpdateValid | xen/xsm/flask/avc.c:625-691 | an update keeps the cache valid |
| Avc.SsReset | xen/xsm/flask/avc.c:697-724 | empties every slot and returns the first failing callback result; on success latest becomes max(latest, seqno) |
| Avc.ResetEmpties | xen/xsm/flask/avc.c:697-724 | after a reset nothing is cached and decisions older than the reset's seqno are refused |
| Avc.HasPermNoaudit | xen/xsm/flask/avc.c:747-787 | uses a covering cached decision or else the server's; returns -EACCES exactly when enforcing and the request is empty or has a denied permission; the server's error is passed on |
| Avc.PermissiveGrants | xen/xsm/flask/avc.c:773-783 | in permissive mode the check returns 0 and the cached entry afterwards allows the requested permissions |
| Avc.Audit | xen/xsm/flask/avc.c:538-554 | logs nothing exactly when denied permissions miss `auditdeny`, or on a grant the requested ones miss `auditallow`; otherwise it logs the denied or requested set |
| Avc.AuditNamesDenied | xen/xsm/flask/avc.c:538-554 | an audit record names only requested permissions and says granted only when all are allowed |
| Avc.SidCmpProps | xen/xsm/flask/avc.c:609-612 | SID matching is symmetric and reflexive, the wildcard matches anything, and other SIDs match only themselves |
| Srat.Initial | xen/arch/x86/srat.c:25-28 | the initial tables satisfy the invariant, with nothing found or parsed |
| Srat.PxmToNode | xen/arch/x86/srat.c:36-42 | -1 for pxm ≥ 256 or an unassigned pxm, else the assigned node |
| Srat.SetupNode | xen/arch/x86/srat.c:44-55 | stable for an assigned pxm; a new pxm gets the lowest node not found; -1 exactly when all 64 nodes are used; the invariant is kept and `pxm_to_node` then gives the node |
| Srat.ConflictingNodes | xen/arch/x86/srat.c:57-70 | returns the lowest parsed non-empty node whose range intersects or equals [start, end), and -1 exactly when there is none |
| Srat.ConflictsIsOverlap | xen/arch/x86/srat.c:57-70 | a conflict is exactly a non-empty shared address, or equal ranges |
| Srat.Cutoff | xen/arch/x86/srat.c:72-85 | with well-formed ranges the clipped node is empty or inside [start, end]; it is non-empty exactly when the ranges overlap, and then it is their intersection |
| Srat.CutoffIdempotent | xen/arch/x86/srat.c:72-85 | clipping twice to the same range is clipping once |
| Srat.SlitValid | xen/arch/x86/srat.c:108-123 | accepts exactly when every diagonal entry is 10 and every other entry exceeds 10 |
| Srat.MemoryAffinity | xen/arch/x86/srat.c:175-229 | disabled or not-enabled entries change nothing; a bad length marks the table bad; the invariant is kept |
| Srat.AffinityOverlap | xen/arch/x86/srat.c:204-216 | an entry that overlaps another node's range, and does not also overlap its own node's range, marks the table bad and leaves the node ranges unchanged |
| Srat.AffinityRecords | xen/arch/x86/srat.c:217-226 | the first entry for a node sets its range exactly; a later one widens it to the hull; no other node changes |
| Srat.OwnOverlapMasksOther | xen/arch/x86/srat.c:204-216 | as written, an entry overlapping both its own node and a higher node is accepted, and the two nodes then overlap |
| Srat.MemoryAffinityStrict | xen/arch/x86/srat.c:204-216 | the corrected check marks the table bad whenever any other node conflicts |
| Srat.StrictAgrees | xen/arch/x86/srat.c:204-216 | the corrected check differs from the original only on entries the original wrongly accepts |
| Srat.CoverRange | xen/arch/x86/srat.c:245-262 | the shrinking loop reaches an empty range exactly when the parsed nodes span [start, end) |
| Srat.NodesCoverMemory | xen/arch/x86/srat.c:233-271 | succeeds exactly when every RAM entry of the e820 map is spanned by parsed nodes |
| Srat.UnparseNode | xen/arch/x86/srat.c:273-281 | drops the node from the parsed set and the processor map entries pointing to it |
| Srat.Prune | xen/arch/x86/srat.c:290-295 | clips every node to the memory range and unparses exactly those smaller than NODE_MIN_SIZE |
| Srat.PruneBounds | xen/arch/x86/srat.c:290-295 | after pruning, every parsed node lies inside the memory range and is at least NODE_MIN_SIZE |
| Srat.Register | xen/arch/x86/srat.c:297-323 | succeeds exactly when an SRAT was seen, the hash shift is valid and memory is covered; a failure after an SRAT marks the table bad; only CPUs on parsed nodes keep their node |
| Srat.ScanNodes | xen/arch/x86/srat.c:286-324 | scanning only removes parsed nodes and keeps the pxm map and found set |
| Srat.NodeToPxm | xen/arch/x86/srat.c:326-335 | returns the pxm that maps to the node, or 0 when there is none |
| Srat.NodeToPxmInverse | xen/arch/x86/srat.c:326-335 | `node_to_pxm(pxm_to_node(p)) == p` for every assigned pxm |
| Srat.PxmToNodeInverse | xen/arch/x86/srat.c:36-42 | `pxm_to_node(node_to_pxm(n)) == n` for every found node, and that node is below MAX_NUMNODES |
| Srat.NodeDistance | xen/arch/x86/srat.c:337-345 | without a SLIT, 10 when a == b and 20 otherwise; with one, the table entry for the two nodes' pxms |
| Srat.DistanceLocalFirst | xen/arch/x86/srat.c:337-345 | with a valid SLIT, the distance is 10 exactly for the node itself and larger for any other |

## Left out

- **Locks, concurrency and output.**
  - Locks, RCU, atomics and the `cmpxchg` retry loops are single atomic steps.
  - `printk`, `dprintk`, the key handlers and `avc_dump_*` are not modelled.
- **Memory clearing and timing.**
  - `scrub_page`, `scrub_heap_pages` and `memguard_*` are left out.
  - The 1 ms budget, timer and trylock of `page_scrub_softirq` are left out. The scrub queue is a sequence, and one call of `DomHeap.ScrubBatch` is one batch.
- **TLB flushing.** `tlbflush_filter` and `flush_tlb_mask` are left out. Only the `need_tlbflush` flag is kept.
- **`init_node_heap`.** Its metadata placement is pointer arithmetic, and node heaps are always present in the model.
- **Domain reference counting.** `get_knownalive_domain` and `put_domain` are replaced by the `dropRef` result of `DomHeap.FreeDomheapPages`.
- **The `badpage` option parsing** (`simple_strtoul`). The bad pages are a set parameter of `Boot.InitBootPages`.
- **Machine parameters.** `max_page`, the frame table, the RAM types and the Xen-fixed frames are a parameter record, and the node of a frame is a function parameter.
- Boot.AllocBootPages: states the intended search without unsigned wrap-around. The wrap of the search as written is the Boot finding.
- Boot.InitBootPages: `round_pgup` of a physical address near 2^64 is not wrapped.
- Boot.AllocBootPages: `pfn_align` is not required to be a power of two. Rounding down is to a multiple.
- HeapAlloc.AllocHeapPages: takes an already resolved node. The NUMA_NO_NODE substitution of lines 346-347 is made by its caller `DomHeap.TargetNode`, with the current CPU's node as the parameter `cpuNode`.
- HeapAlloc.AllocFails: started from a node that is not online, the ring need not visit every online node (see `HeapAlloc.OfflineStartSkips`). The contract speaks of the nodes on the ring; `HeapAlloc.AllocFailsOnline` states the online-node form for an online start.
- HeapAlloc.AllocHeapPages: an order-0 request that finds nothing returns failure, as the source does. It does not model the source's retries under concurrency.
- HeapInit.EndBootValid: marking frames in the boot bitmap after the boot allocator ends is not modelled.
- HeapInit.InitValid: requires pg ≥ 1, because frame 0 has no zone (`page_to_zone` gives -1).
- HeapFree.FreeHeapPages: uses the corrected carving of `reserve_offlined_page` (the Findings row for page_alloc.c:444-484), which keeps each re-inserted block aligned to its order. The source carves without that check, so the validity stated here is for the corrected program.
- HeapFree.FreeValid: uses the corrected carving of `reserve_offlined_page` (the Findings row for page_alloc.c:444-484), which keeps each re-inserted block aligned to its order. The source carves without that check, so the validity stated here is for the corrected program.
- HeapOffline.ReserveHeapPage: uses the corrected carving of `reserve_offlined_page` (the Findings row for page_alloc.c:444-484), which keeps each re-inserted block aligned to its order. The source carves without that check, so the validity stated here is for the corrected program.
- HeapOffline.ReserveHeapPageValid: uses the corrected carving of `reserve_offlined_page` (the Findings row for page_alloc.c:444-484), which keeps each re-inserted block aligned to its order. The source carves without that check, so the validity stated here is for the corrected program.
- HeapOffline.OfflineFreeValid: uses the corrected carving of `reserve_offlined_page` (the Findings row for page_alloc.c:444-484), which keeps each re-inserted block aligned to its order. The source carves without that check, so the validity stated here is for the corrected program.
- DomHeap.FreeDomheapValid: uses the corrected carving of `reserve_offlined_page` (the Findings row for page_alloc.c:444-484), which keeps each re-inserted block aligned to its order. The source carves without that check, so the validity stated here is for the corrected program.
- DomHeap.ScrubBatch: uses the corrected carving of `reserve_offlined_page` (the Findings row for page_alloc.c:444-484), which keeps each re-inserted block aligned to its order. The source carves without that check, so the validity stated here is for the corrected program.
- HeapFree.FreeValid: the source decrements `avail` for each withheld offlined page without an underflow check. The model states the decrement when it cannot underflow.
- HeapOffline.OnlinePage: the `unsigned int` return of `online_page` is modelled as a signed result.
- DomHeap.AssignPages: the 32-bit quota comparison is stated on unbounded integers.
- DomHeap.FreeDomheapValid: requires that the freed block is not already on the scrub queue. A second free of a queued page is a caller error.
- DomHeap.ScrubBatch: `scrub_pages` is an exact count with no `unsigned long` wrap.
- **AVC concurrency and counters.**
  - RCU, the per-slot locks and the atomic node counter are sequential.
  - `lru_hint` and the `int` counters are unbounded integers.
- **AVC externals.**
  - `security_compute_av` is a parameter of `Avc.HasPermNoaudit` giving a result code and a decision.
  - The registered callbacks are a parameter of `Avc.SsReset`.
  - `avc_add_callback` and `avc_has_perm` (audit plumbing) are not modelled.
- Avc.PermissiveGrants: assumes that the node count is below the threshold, so that no reclaim runs inside the check.
- Avc.UpdateNode: on -ENOENT the source may already have reclaimed nodes. The model states that the cache is unchanged only when no reclaim was triggered.
- **SRAT externals.**
  - `compute_hash_shift` is the parameter `hashShift` of `Srat.Register`.
  - `setup_node_bootmem` and `numa_init_array` are left out.
- **ACPI structure layout.** Base and length come as 64-bit numbers, and the header length check is a boolean.
- **The SLIT copy.** The copy through `alloc_boot_pages` and `acpi_numa_slit_init` is left out. The SLIT is an optional parameter of `Srat.NodeDistance`.
- **`acpi_numa_processor_affinity_init` and the hot-plug flag** are not modelled. The APIC-to-node map is a plain map.
- Srat.NodesCoverMemory: uses the source's inclusive last byte (`addr + size - 1`) as an exclusive end, as the source does.
- Srat.NodeDistance: requires both node numbers below 256 (the size of `pxm2node`) and, when a SLIT is given, both nodes' pxms below its locality count. The source does not check either bound.

## Findings

| source | as written | input that shows it | evidently intended | confidence | as-written member | corrected member |
|---|---|---|---|---|---|---|
| xen/common/page_alloc.c:444-484 | the carving loop grows a sub-block from any frame to the largest order whose frames are not offlined, without checking alignment | a free order-2 block at frames 4-7 with frame 4 offlined: frame 5 goes on the order-1 list | each re-inserted block is aligned to its order | medium, not executed | ReserveSample.ReserveAsWrittenMisaligns | HeapFree.ReserveValid |
| xen/common/page_alloc.c:243-245 | `pg + i - nr_pfns` and `max_page - nr_pfns` are unsigned and wrap when the first allocated frame is below nr_pfns or nr_pfns > max_page | max_page = 8, first_valid_mfn = 0, nr_pfns = 4, pfn_align = 1, frames 1 and 5 allocated: candidate 4 stops at frame 5, candidate 1 stops at frame 1, and the next candidate 1 + 0 - 4 wraps to 2^64 - 3, which passes `pg >= first_valid_mfn` | the search stops when no candidate is left | medium, not executed | Boot.StepWrapsAsWritten | Boot.AllocBootPages |
| xen/common/page_alloc.c:757 | `online_page` rejects only `mfn > max_page` | mfn = max_page: the page beyond the frame table is onlined and success is reported | `mfn >= max_page` is rejected | medium, not executed | HeapOffline.OnlineAsWrittenPastTable | HeapOffline.OnlinePage |
| xen/common/page_alloc.c:667 | `offline_page` rejects only `mfn > max_page` | mfn = max_page marked conventional RAM: the frame beyond the frame table is offlined and success is reported | `mfn >= max_page` is rejected | low, not executed (max_page is normally not conventional RAM) | HeapOffline.OfflineAsWrittenPastTable | HeapOffline.OfflinePage |
| xen/common/page_alloc.c:798 | `query_page_offline` rejects only `mfn > max_page` | mfn = max_page marked conventional RAM: the status of a frame outside the table is read and success is reported | `mfn >= max_page` is rejected | low, not executed (max_page is normally not conventional RAM) | HeapOffline.QueryAsWrittenPastTable | HeapOffline.QueryPageOffline |
| xen/arch/x86/srat.c:204-216 | only the lowest conflicting node is checked, and a conflict with the entry's own node is accepted | nodes 0 = [0, 0x1000) and 1 = [0x2000, 0x3000); an entry for node 0 at [0x800, 0x2800) is accepted and node 0 then overlaps node 1 | any conflict with another node marks the table bad | medium, not executed | Srat.OwnOverlapMasksOther | Srat.MemoryAffinityStrict |
