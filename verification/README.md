# A verified model of the virtual machine monitor's core algorithms and protocols

The monitor is a user-space program that runs a guest on the host's hypervisor. Most of it is plumbing
around system calls. This project models, in Dafny, the parts that carry hard invariants, and proves them for every
input, every run and every interleaving.

| modules | what they model |
|---|---|
| `RbTree`, `RbRotate`, `RbInsert`, `RbErase`, `RbUnlink`, `RbWalk` | red-black trees on the heap: linking, rebalancing, unlinking, walking |
| `IntervalTree`, `Bus` | intervals in such a tree, and the port and memory-mapped registries on top |
| `Xics`, `XicsSafety`, `XicsFairness`, `XicsNesting`, `XicsCounting`, `XicsDevice` | the XICS interrupt controller: presentation, rejection, resending, masking, nesting |
| `ThreadPool`, `PauseLock`, `RunOnAll` | three concurrency protocols as step relations over all interleavings: what is safe |
| `PoolProgress`, `PauseProgress`, `RunOnAllProgress` | and when they come to an end |
| `L2Cache`, `SectorRead`, `Qcow` | reading a QCOW2 image through its table cache |
| `VirtQueue`, `DescChain`, `NetReceive` | virtqueue rings with wrapping indices, descriptor chains, merged receive |
| `P9Codec`, `P9Pdu`, `P9Layout` | the 9P wire format over scattered buffers, byte by byte |
| `VfioMsi`, `VfioRoutes` | the shadow state of an assigned device's MSI-X, and which interrupts reach the guest |
| `MemBanks` | guest memory banks: registering, merging, translating |
| `Numbers`, `Sequences` | division by counting, sequences without repetition |

How the models are built:

- A red-black tree is real nodes with `parent`, colour, `left` and `right` that methods update in place. A ghost tree and
  a zipper say what the pointers stand for. A ghost snapshot of the fields turns a run of pointer writes into a function,
  so that what the writes do to memory is proved apart from what that does to the tree.
- A protocol is a state with a program counter for each thread and a function from a state and an action to the next
  state. An action that locks or waits is enabled only when it may go on. The theorems quantify over every enabled run.
  That something can come about is a run that a lemma builds; that it cannot is a statement about all runs.
- A device or registry that the monitor updates in place is a class. Its methods are proved equal to pure steps on its
  value, and the theorems about runs are about those steps.
- A run of the interrupt controller is polite when each call meets the condition that the `...Exact` lemma for it gives.
  Accepting only what is presented, never ending an interrupt below what is presented, and masking sources freely but
  reconfiguring them otherwise only while they neither wait nor are presented is polite. Delivery is fair when three things
  hold (what is presented is more favoured than the CPU priority, a waiting source is held back by its server, a wanted
  interprocessor interrupt gives way only to something at least as favoured) and a fourth: a presented source is masked, or
  still meant for that CPU and no more favoured than when it was presented. Where the fourth fails the three may still hold
  for now, but then calls that only set priorities, raise or mask sources or accept what is presented, which are always
  polite, can break them (`XicsFairness.FairIsLasting`).
- Answers of the environment (system calls, the hypervisor, the choice of the next thread) are parameters.

Where the code does less than one would expect, the model keeps the code as it is. For each of these a lemma or a method
gives concrete states or inputs that show the difference, and another says exactly when the property holds:

- A QCOW read keeps the byte count of a cluster in an unsigned variable, so the error -1 passes for a large count. A read
  that begins where the first-level table does not reach claims success (`SectorRead.UnreachedReadClaimsSuccess`);
  `SectorRead.ReadExact` says when a read is right.
- A refused registration of reserved memory that merged a bank first leaves the merge behind
  (`MemBanks.MergeBeforeRefusal`); `MemBanks.Memory.Register` says when.
- A guest address in a reserved bank may translate to the host and back to another bank, since reserved banks share a host
  address (`MemBanks.ReservedShareHost`); `MemBanks.TranslationRoundTrip` says when it does not.
- Receiving an empty packet takes a buffer and never returns it, and a buffer whose first piece is shorter than the header
  gets the count of buffers outside that piece (`NetReceive.ShortPieceStrays`); `NetReceive.Receive` says when.
- An interrupt is lost when its source is masked while it waits to be resent (`XicsSafety.MaskedWhileWaitingIsLost`), or is
  masked while presented and then displaced (`XicsSafety.DisplacedWhileMaskedIsLost`), on runs from the start;
  `XicsSafety.DropsExact` says which calls lose one.
- Making a presented source more favoured leaves it waiting behind a less favoured one
  (`XicsSafety.ReconfiguredWhilePresentedIsMissed`); `XicsSafety.StepExact` says which calls do such a thing.
- Installing all vectors at once may be refused after the prepared descriptors were overwritten
  (`VfioMsi.RefusalLeavesStale`); `VfioMsi.InStepExact` says at which guest writes.
- A 9P string with a NUL in it, or of 32768 bytes or more, does not survive the wire (`P9Codec.NulCutsString`,
  `P9Codec.LongStringRefused`); `P9Codec.RoundTrip` says which do.
- On a virtqueue whose size does not divide 2^16 the device is handed the wrong buffer after enough rounds
  (`VirtQueue.OutOfOrder`); `VirtQueue.SizeExact` says that other sizes are fine.
- A memory-mapped region that runs past the end of the address space answers nowhere (`Bus.WrappedRegionIsEmpty`) and can
  hide others: for every such region there are two that do not wrap, one of a single address and one of length 0, such that
  with all three registered that address is not found any more (`Bus.HideRegion`) and is then registered a second time
  without an error, so that two regions hold it (`Bus.RegisterTwice`). As long as none is registered, lookups are exact
  (`Bus.MmioMap.Lookup`); `IntervalTree.SearchExact` says at which points they are in any tree.
- A port range with a negative count ends below its first port, unless the sum is negative, and hides ports in the same way
  (`Bus.HidePort`); `Bus.IoPorts.Register` says when ports in order stay so.
- A vCPU that has not got the pause mutex yet when the next pause takes it, or that is signalled just before it resets its
  flag, does not hear that pause, which then never comes to an end (`PauseProgress.PauseAgainHangs`);
  `PauseProgress.MissesExact` says which steps do that, and `PauseProgress.PausableExact` that the guest can always be paused
  otherwise.
- Two vCPUs that each run a task on all of them wait for each other for ever (`RunOnAllProgress.TwoCallsHappen`,
  `RunOnAllProgress.TwoCallsHang`); `RunOnAllProgress.WaitsExact` says which steps hold a call up, and
  `RunOnAllProgress.ReturnExact` that it can return otherwise.
- Masking MSI-X as a whole does not stop what a vector sends (`VfioRoutes.MaskedYetReaches`); `VfioRoutes.RunReaches` says
  which interrupts reach the guest otherwise.
- An indirect table of 65536 descriptors is taken for an empty one (`DescChain.LongTableIsCut`); `DescChain.IndirectExact`
  says which chains are walked whole.

## Model

| member | source | states |
|---|---|---|
| `RbTree.PlugRedBlack` | util/rbtree.c:26-44 | a tree with a hole filled is red-black exactly when the filling and its surroundings are balanced and meet at the right black height and colour |
| `RbTree.PlugInorder` | util/rbtree.c:437-466 | the sort order of a tree is the order before a place in it, the order below it and the order after it |
| `RbRotate.ChangeChild` | include/linux/rbtree_augmented.h:120-134 | replaces one child link of the parent, or the root link, and no other field |
| `RbRotate.SetParentColor` | include/linux/rbtree_augmented.h:114-118 | writes the parent and colour of one node and no other field |
| `RbRotate.RotateSetParents` | util/rbtree.c:56-69 | the new node takes the old one's parent, colour and link, and the old one hangs below it with the given colour |
| `RbRotate.RightRotation` | util/rbtree.c:141-155 | the pointer writes of a right rotation at a place turn the subtree there into its rotation and leave the rest of the tree as it was |
| `RbRotate.LeftRotation` | util/rbtree.c:184-190 | the mirror image of that |
| `RbInsert.FlipStep` | util/rbtree.c:95-116 | flipping colours keeps every property except possibly red above red two levels up, and the order |
| `RbInsert.Case3LeftStep` | util/rbtree.c:141-155 | the outer rotation ends with a red-black tree with the same order |
| `RbInsert.Case23LeftStep` | util/rbtree.c:118-155 | so do the inner and the outer rotation together |
| `RbInsert.Case3RightStep` | util/rbtree.c:183-190 | the outer rotation on the other side |
| `RbInsert.Case23RightStep` | util/rbtree.c:170-190 | the inner and the outer rotation on the other side |
| `RbInsert.InsertColor` | util/rbtree.c:71-194 | from a red leaf in a red-black tree the loop ends with all red-black properties, consistent parent links and the same nodes in the same order; it ends because it climbs |
| `RbInsert.LinkNode` | include/linux/rbtree.h:79-86 | links a red node without children below its parent, or at the root |
| `RbInsert.InsertAt` | include/linux/rbtree.h:79-86 | linking and rebalancing give a red-black tree whose order is the old one with the new node in its place |
| `RbErase.Case1LeftStep` | util/rbtree.c:215-233 | a red sibling is rotated away; what is missing stays missing by one, and the order is the same |
| `RbErase.Case2Step` | util/rbtree.c:237-262 | recolouring a black sibling without red children ends the loop or moves the missing black node one level up |
| `RbErase.Case34LeftFinish` | util/rbtree.c:264-307 | a red inner nephew: two rotations end with a red-black tree with the same order |
| `RbErase.Case4LeftStep` | util/rbtree.c:287-307 | a red outer nephew: one rotation does |
| `RbErase.Case1RightStep` | util/rbtree.c:308-320 | case 1 on the other side |
| `RbErase.Case34RightFinish` | util/rbtree.c:336-357 | cases 3 and 4 on the other side |
| `RbErase.Case4RightStep` | util/rbtree.c:347-357 | case 4 on the other side |
| `RbErase.EraseColor` | util/rbtree.c:200-360 | from a tree that lacks one black node below a place the loop ends with all red-black properties, consistent parent links and the same nodes in the same order; it ends because it climbs |
| `RbUnlink.NearStep` | include/linux/rbtree_augmented.h:167-183 | the successor is the right child: it takes the erased node's place, colour and left subtree |
| `RbUnlink.FarStep` | include/linux/rbtree_augmented.h:184-210 | the successor is further down: it leaves its place to its right child and takes the erased node's place, colour and both subtrees |
| `RbUnlink.UnlinkAny` | include/linux/rbtree_augmented.h:136-231 | unlinking keeps the order of all other nodes, and asks for rebalancing exactly where a black node without children went missing |
| `RbUnlink.Erase` | util/rbtree.c:389-395 | erasing any node of a red-black tree gives a red-black tree, laid out in memory, with exactly that node gone from the order |
| `RbWalk.First` | util/rbtree.c:413-423 | the first node in sort order, or none for the empty tree |
| `RbWalk.Next` | util/rbtree.c:437-466 | the node after a given one in sort order, or none after the last |
| `RbWalk.HeightBound` | util/rbtree.c:36-39 | no path is longer than twice the black height, and 2 to the black height is at most the size plus one |
| `IntervalTree.OverlapIsSharing` | util/rbtree-interval.c:45-50 | two intervals that are not empty overlap exactly when they share a point |
| `IntervalTree.ScanUnique` | util/rbtree-interval.c:5-20 | in ordered intervals at most one holds a point |
| `IntervalTree.ScanRangeIsScan` | util/rbtree-interval.c:22-34 | a range is held by the interval that holds its first point, if that reaches far enough, and by no other |
| `IntervalTree.SearchIsScan` | util/rbtree-interval.c:5-20 | in ordered intervals the way down to a point finds what a linear scan finds |
| `IntervalTree.SearchExact` | util/rbtree-interval.c:5-20 | in a tree of any intervals, also of reversed or overlapping ones, the way down to a point finds what a linear scan finds exactly when the first interval that holds the point is, seen from every node on the way, on the side where the way goes on |
| `IntervalTree.BlockedIsOverlap` | util/rbtree-interval.c:36-51 | in ordered intervals the way down for a new one is blocked exactly when it overlaps one of them |
| `IntervalTree.PutOrdered` | util/rbtree-interval.c:36-55 | otherwise the place where it ends keeps the order |
| `IntervalTree.IntTree.SearchSingle` | util/rbtree-interval.c:5-20 | follows the way down to the point, so in an ordered tree it finds what a linear scan of all intervals would find |
| `IntervalTree.IntTree.SearchRange` | util/rbtree-interval.c:22-34 | likewise for a whole range |
| `IntervalTree.IntTree.FindHole` | util/rbtree-interval.c:36-51 | the descent fails exactly when the way down is blocked, and else ends where the interval belongs |
| `IntervalTree.IntTree.Insert` | util/rbtree-interval.c:36-55 | adds exactly the new node, whatever its bounds, to a tree that stays red-black, where the way down ends; an ordered tree refuses it exactly on an overlap, and is ordered afterwards exactly when it is refused or not reversed |
| `IntervalTree.IntTree.Erase` | include/kvm/rbtree-interval.h:25-28 | removes exactly one node from a tree that stays red-black, and ordered if it was |
| `Bus.TreeDisjoint` | hw/ioport.c:82-122 | what is registered is pairwise disjoint |
| `Bus.RunDisjoint` | hw/ioport.c:82-146 | after any sequence of registrations and removals at most one registration answers at an address |
| `Bus.IoPorts.Lookup` | hw/ioport.c:185-188 | returns what the way down to a port finds; among ports in order that is the one registration that holds the port, or nothing if none does |
| `Bus.FreePortExact` | hw/ioport.c:25-35 | of the ports handed out two are the same exactly when their requests are a multiple of 64 apart, exactly the last 24 of 64 are below the start of the range, and none is the mark for no port |
| `Bus.IoPorts.Register` | hw/ioport.c:82-122 | takes a port from the allocator when asked to, evicts what is found at the first port, then adds the range where the way down for it ends; among ports in order it is added exactly when it overlaps nothing that is left, the answer says whether it was, and they stay in order exactly unless it is added with a negative count and a sum that is not negative |
| `Bus.IoPorts.Unregister` | hw/ioport.c:124-146 | removes what is found at a port, and reports an error exactly when nothing is; among ports in order that is what answers there |
| `Bus.IoPorts.UnregisterAll` | hw/ioport.c:148-162 | leaves nothing registered, in whatever order it was |
| `Bus.MmioMap.Register` | hw/mmio.c:62-96 | adds any region where the way down for it ends; among regions in order it is refused exactly when it overlaps one, and they stay in order exactly when it is refused or does not run past the end of the address space |
| `Bus.MmioMap.Deregister` | hw/mmio.c:98-121 | removes the region found at an address and says whether there was one; among regions in order that is the one that holds the address |
| `Bus.MmioMap.Lookup` | hw/mmio.c:26-36 | among regions in order finds the one that holds a whole access, and finds none only if none does |
| `Bus.WrappedRegionIsEmpty` | hw/mmio.c:62-82 | a region holds all of its addresses exactly when it does not run past the end of the address space, and else none of them |
| `Bus.WrappedRegionHides` | util/rbtree-interval.c:5-20 | a red-black tree that has such a region between two others has it at the root, and what is on its right is not found below its first address |
| `Bus.HideRegion` | hw/mmio.c:62-96 | for every such region: registering it between a region of one address and one of length 0 succeeds three times, and that address, which is registered, is not found |
| `Bus.RegisterTwice` | hw/mmio.c:62-96 | with those three registered, registering that address again succeeds, and two regions hold it |
| `Bus.HidePort` | hw/ioport.c:82-122 | for every port range with a negative count and a positive sum: registering it between one port and an empty range succeeds three times, and that port, which is registered, is not found |
| `XicsSafety.SpuriousAcceptExact` | arch/powerpc/xics.c:136-144 | accepting with nothing presented keeps delivery fair exactly when the stale pending priority holds back all that waits |
| `XicsSafety.EoiExact` | arch/powerpc/xics.c:146-156 | an end of interrupt keeps delivery fair exactly when nothing is presented or what is presented stays above the new CPU priority |
| `XicsSafety.XiveExact` | arch/powerpc/xics.c:242-257 | reconfiguring any source keeps delivery fair exactly when that masks it, or when it stays with every server it is presented to, gets no more favoured there unless it is sent again, and is held back by its new server if it only waits |
| `XicsSafety.StepExact` | arch/powerpc/xics.c:76-257 | every call keeps delivery fair exactly when it meets its condition; setting priorities and raising sources always do |
| `XicsSafety.NoMissedDelivery` | arch/powerpc/xics.c:76-177 | delivery stays fair all along a run exactly when the run is polite. That is four things in every state: what is presented is more favoured than the CPU priority; a presented source is masked, or still meant for that CPU and no more favoured than when presented; every waiting source is held back by its server; a pending interprocessor interrupt is presented or held back |
| `XicsFairness.DeliveredClauses` | arch/powerpc/xics.c:76-177 | the fair states are those where no interrupt waits without a reason, which is the first, third and fourth of these, and where every presented source meets the second |
| `XicsFairness.UnfairBreaks` | arch/powerpc/xics.c:93-177 | from every state where no interrupt waits without a reason, and that is not fair, some calls that only set priorities, raise or mask sources or accept what is presented make one wait |
| `XicsFairness.FairIsLasting` | arch/powerpc/xics.c:76-257 | so the fair states are exactly those from which no such calls lead to an interrupt that waits without a reason |
| `XicsFairness.PoliteExact` | arch/powerpc/xics.c:76-257 | a run is polite exactly when every state on it is such, which says it without naming the second clause |
| `XicsNesting.StepSettings` | arch/powerpc/xics.c:76-257 | which call leaves which CPU priority, interprocessor priority, server and source priority: an accept leaves the priority of what it accepted, and presenting, rejecting and resending change none |
| `XicsNesting.RaisedExact` | arch/powerpc/xics.c:158-177 | a raised source is presented exactly when it is more favoured than the CPU priority and what is presented, and what it displaces waits; otherwise it waits and no CPU changes |
| `XicsNesting.UnmaskedExact` | arch/powerpc/xics.c:204-257 | raising a masked source only marks it pending, and unmasking it is clearing that and raising it once |
| `XicsNesting.IpiExact` | arch/powerpc/xics.c:76-134 | the same of an interprocessor interrupt |
| `XicsNesting.LoweredExact` | arch/powerpc/xics.c:103-124 | a more favoured CPU priority sends back what is presented exactly when that is not more favoured still |
| `XicsNesting.AcceptedExact` | arch/powerpc/xics.c:136-144 | after an accept a source or an interprocessor interrupt gets through exactly when it is more favoured than what was accepted |
| `XicsNesting.HandlersNest` | arch/powerpc/xics.c:136-156 | on every run of a CPU that ends each interrupt with the priority it read, every handler runs at a more favoured priority than what it interrupted, delivery stays fair, and with all handlers ended the CPU has its first priority again |
| `XicsNesting.HandlerInterrupted` | arch/powerpc/xics.c:136-177 | while an interrupt is handled a more favoured one gets through and a less favoured one waits |
| `XicsNesting.HandlerEnded` | arch/powerpc/xics.c:146-156 | ending it lets that one through |
| `XicsCounting.StepTokens` | arch/powerpc/xics.c:76-257 | no call but raising it adds to how often a source is presented, waiting or pending, and accepting it takes one away |
| `XicsCounting.AcceptedWasRaised` | arch/powerpc/xics.c:76-257 | on every run what was accepted of a source and what may still be is at most what was raised and what there was |
| `XicsCounting.AcceptedAtMostRaised` | arch/powerpc/xics.c:422-495 | from the start a source is never accepted more often than it was raised |
| `XicsSafety.InitDelivered` | arch/powerpc/xics.c:422-485 | the initial state is fair |
| `XicsSafety.ResendExact` | arch/powerpc/xics.c:93-101 | with nothing presented at its server, a resend drops a source exactly when that is masked, not pending behind the mask, and not presented when its turn comes |
| `XicsSafety.DropsExact` | arch/powerpc/xics.c:93-257 | in any state a call drops a source that is on record exactly when it takes the last of it or resends in that way |
| `XicsSafety.RecordedAlongExact` | arch/powerpc/xics.c:93-257 | on any run a source stays on record all along exactly when no call of the run drops it |
| `XicsSafety.DropsWhenDelivered` | arch/powerpc/xics.c:93-156 | where delivery is fair, a call that takes nothing drops a source exactly when it resends while the source waits behind its mask, not presented |
| `XicsSafety.StaysRecorded` | arch/powerpc/xics.c:103-177 | a source on record stays presented, waiting or pending behind its mask until a call returns its number, on every run that does not mask it while presented or waiting |
| `XicsSafety.RaisedStaysRecorded` | arch/powerpc/xics.c:204-257 | raising a source puts it on record, and it stays there until a call returns its number, from any state in which it is not masked while presented or waiting |
| `XicsSafety.StaysUnmasked` | arch/powerpc/xics.c:93-257 | every run that does not mask a source while it is presented or waiting keeps that, also where the source is taken |
| `XicsSafety.RaisedFromStart` | arch/powerpc/xics.c:204-257 | after any such run from the start, however often the source was raised and taken, raising it puts it on record until a call returns its number |
| `XicsSafety.LinesFollow` | arch/powerpc/xics.c:64-177 | on every run a CPU's external line is high exactly when something is presented to it |
| `XicsSafety.InitSafe` | arch/powerpc/xics.c:422-485 | the lines and masks of the initial state agree with that |
| `XicsSafety.MaskedWhileWaitingIsLost` | arch/powerpc/xics.c:225-257 | a run on which masking a source that waits loses its interrupt |
| `XicsSafety.DisplacedWhileMaskedIsLost` | arch/powerpc/xics.c:158-240 | a run from the start after which a presented source that is masked is displaced during a resend before its own turn, and its interrupt is lost |
| `XicsSafety.ReconfiguredWhilePresentedIsMissed` | arch/powerpc/xics.c:158-177 | a run on which reconfiguring a presented source leaves it waiting behind a less favoured one |
| `XicsDevice.Controller.IcpIrq` | arch/powerpc/xics.c:158-177 | presenting an interrupt, in place, is the pure step: it presents the new one and rejects the old, or rejects the new one |
| `XicsDevice.Controller.IcpCheckIpi` | arch/powerpc/xics.c:76-91 | the check for an interprocessor interrupt is its pure step |
| `XicsDevice.Controller.IcsReject` | arch/powerpc/xics.c:218-223 | rejecting marks the source as waiting |
| `XicsDevice.Controller.IcsResend` | arch/powerpc/xics.c:225-240 | the loop over all sources, which calls back into presentation, is the recursive resend |
| `XicsDevice.Controller.IcpResend` | arch/powerpc/xics.c:93-101 | resending for one server is the interprocessor check and the loop |
| `XicsDevice.Controller.IcpSetCppr` | arch/powerpc/xics.c:103-124 | setting the CPU priority is its pure step, including the rejection it may cause |
| `XicsDevice.Controller.IcpSetMfrr` | arch/powerpc/xics.c:126-134 | setting the interprocessor priority is its pure step |
| `XicsDevice.Controller.IcpAccept` | arch/powerpc/xics.c:136-144 | returns the old register, both of whose halves can be read back, and takes what was presented |
| `XicsDevice.Controller.IcpEoi` | arch/powerpc/xics.c:146-156 | an end of interrupt is its pure step |
| `XicsDevice.Controller.IcsSetIrqMsi` | arch/powerpc/xics.c:204-216 | raising a source is its pure step; lowering one does nothing |
| `XicsDevice.Controller.IcsWriteXiveMsi` | arch/powerpc/xics.c:242-257 | reconfiguring a source is its pure step, including delivery of what was pending behind its mask |
| `XicsDevice.Controller.HCppr` | arch/powerpc/xics.c:277-285 | the hypercall is an event of the run model |
| `XicsDevice.Controller.HIpi` | arch/powerpc/xics.c:287-300 | the hypercall is an event, and fails exactly for a server that does not exist |
| `XicsDevice.Controller.HXirr` | arch/powerpc/xics.c:302-310 | the hypercall is an event and returns what was presented and the old priority |
| `XicsDevice.Controller.HEoi` | arch/powerpc/xics.c:312-320 | the hypercall is an event |
| `XicsDevice.Controller.RtasSetXive` | arch/powerpc/xics.c:322-348 | the call is an event when its arguments are valid, changes nothing otherwise, and says which |
| `XicsDevice.Controller.IrqLine` | arch/powerpc/xics.c:487-495 | the entry point for devices is an event |
| `ThreadPool.FlightMeans` | util/threadpool.c:20-70 | a job is queued at most once, is in the hands of at most one worker, is never both, and only if it has been signalled |
| `ThreadPool.FlightFinds` | util/threadpool.c:55-70 | while the pool runs a signalled job is queued, with a worker, or about to be pushed |
| `ThreadPool.StepFlight` | util/threadpool.c:20-98 | every step of every thread keeps single flight and exact counting: completed callbacks plus the count are the signals, up to callbacks not counted down yet |
| `ThreadPool.StepNotForgotten` | util/threadpool.c:77-98 | every step keeps this: while the pool runs no worker has exited, and a queued job has a worker awake or a caller that has pushed and has its signal still to send |
| `ThreadPool.RunSafe` | util/threadpool.c:160-175 | all of that in every interleaving of any number of workers and callers, with spurious wake-ups |
| `ThreadPool.RunExclusive` | util/threadpool.c:38-53 | in every interleaving whoever is in a critical section of the pool or of a job owns its mutex, and nobody else does |
| `ThreadPool.InitSafe` | util/threadpool.c:124-137 | the pool starts with all of that |
| `PoolProgress.FirstInFirstOut` | util/threadpool.c:19-37 | in every interleaving what was queued followed by what was pushed is what was taken followed by what is queued still |
| `PoolProgress.RestIsDone` | util/threadpool.c:72-98 | when no thread can take a step while the pool runs, nothing is queued and every job has run as often as it was signalled |
| `PoolProgress.StepDismissed` | util/threadpool.c:139-153 | every step keeps this: once the pool is stopped there is a signal to come for every worker that sleeps |
| `PoolProgress.RestIsExited` | util/threadpool.c:139-158 | when no thread can take a step after that, every worker has exited |
| `PoolProgress.EveryScheduleFinishes` | util/threadpool.c:55-175 | under every schedule the threads come to rest within a bounded number of steps, with all work done or all workers gone |
| `PoolProgress.RunDismissed` | util/threadpool.c:55-175 | the hypotheses of these hold in every interleaving, stopping and spurious wake-ups included |
| `PauseLock.InvStopped` | src/kvm.c:455-482 | when pausing has returned, every vCPU has notified in this round and is held at the mutex, and no other thread holds a pause |
| `PauseLock.PausedExcludesLookups` | include/kvm/brlock.h:34-38 | in every interleaving no vCPU is inside a lookup while a thread may change the trees, and none ever notifies on a closed event, which would end the program |
| `PauseLock.NotifiesInTheOpen` | src/kvm.c:484-488 | a vCPU that is about to notify was asked to in this round and has not done so, so the event is open |
| `PauseLock.StaysPaused` | src/kvm.c:484-492 | no step but continuing ends a pause or moves a vCPU out of it |
| `PauseLock.InitInv` | src/cpu.c:132-154 | the start satisfies the invariant |
| `PauseLock.PauseHappens` | src/kvm.c:455-482 | a run from the start that reaches a pause |
| `PauseProgress.ContinueReleases` | src/kvm.c:450-453 | continuing is possible whenever the guest is held, frees the mutex, and lets every vCPU that waits for it go on |
| `PauseProgress.CanResume` | src/kvm.c:484-492 | with the mutex free all vCPUs can get back to the guest with no pause left to answer |
| `PauseProgress.LookupHappens` | src/cpu.c:164-200 | a vCPU in the guest can look something up and comes back, with the guest not held |
| `PauseProgress.PauseTwice` | src/kvm.c:450-482 | for any number of vCPUs and threads: a run from the start through a pause, back to the guest, to a second pause |
| `PauseProgress.MissesExact` | src/kvm.c:455-492 | a step makes a vCPU miss a pause exactly when the pause takes the mutex while the vCPU waits for it, or when the signal arrives just before the vCPU resets its flag; no step undoes it |
| `PauseProgress.MissedForGood` | src/kvm.c:471-480 | a pause that a vCPU has missed does not end on any run, and its thread keeps the mutex |
| `PauseProgress.PauseExact` | src/kvm.c:455-482 | a pause that has the mutex can come to an end exactly when no vCPU has missed it |
| `PauseProgress.PausableExact` | src/kvm.c:450-482 | from any state any thread can come to hold the guest exactly when no vCPU has missed a pause that is going on |
| `PauseProgress.HeardExact` | src/kvm.c:455-492 | on a run every pause is heard by every vCPU exactly when no step of it is such a one |
| `PauseProgress.PauseAgainHangs` | src/kvm.c:450-482 | a run from the start: pausing again right after continuing, and then no continuation of it ends that pause |
| `RunOnAll.AllReported` | src/cpu.c:97-130 | when all completions are counted every vCPU has run the task exactly once, every slot is empty and the event is drained |
| `RunOnAll.CallsComplete` | src/cpu.c:79-130 | in every interleaving of any number of callers a call returns only then, and none dies because a task is pending |
| `RunOnAll.InitInv` | src/cpu.c:132-162 | the start satisfies the invariant |
| `RunOnAll.ReturnHappens` | src/cpu.c:97-130 | a run from the start on which a call returns |
| `RunOnAllProgress.StepCalls` | src/cpu.c:97-130 | every step keeps this: a vCPU that calls makes no other call, leaves its loop until it returns, and has run the task itself once it has handed it to itself |
| `RunOnAllProgress.ReturnReleases` | src/cpu.c:129-130 | a call that has counted all reports can return, which frees the lock for the next and puts its vCPU back into its loop |
| `RunOnAllProgress.WaitsExact` | src/cpu.c:97-130 | a step holds a call up exactly when the call takes the lock while another vCPU is inside a call, or a vCPU begins one with its task still to run; no step undoes it |
| `RunOnAllProgress.HeldUpForGood` | src/cpu.c:119-128 | on no run does a call that is held up, or any other after it, come to return |
| `RunOnAllProgress.ReturnExact` | src/cpu.c:97-130 | a call that has the lock can return exactly when it is not held up |
| `RunOnAllProgress.EnteringExact` | src/cpu.c:97-130 | with the lock free a call from a vCPU can return exactly when no other vCPU is inside a call |
| `RunOnAllProgress.GoingExact` | src/cpu.c:97-130 | on a run no call is ever held up exactly when no step of it is such a one |
| `RunOnAllProgress.TwoCallsHang` | src/cpu.c:97-130 | with two vCPUs inside a call and the lock free, no call returns on any run |
| `RunOnAllProgress.TwoCallsHappen` | arch/powerpc/spapr_hcall.c:129 | a run from the start that reaches this |
| `L2Cache.BigEndianFirst` | hw/disk/qcow.c:424-440 | numbers in the image have their most significant byte first |
| `L2Cache.ByLastUseOrder` | hw/disk/qcow.c:184-197 | the reference order lists exactly the offsets used, each once, by when it was last used |
| `L2Cache.LeastRecentlyUsed` | hw/disk/qcow.c:149-182 | after any run of accesses exactly the 32 offsets used most recently are cached, oldest first, so what is evicted is always the least recently used |
| `L2Cache.Cache.Lookup` | hw/disk/qcow.c:91-111 | finds a table exactly when the list has its offset |
| `L2Cache.Cache.Search` | hw/disk/qcow.c:184-197 | finds a table and makes it the most recently used |
| `L2Cache.Cache.CacheTable` | hw/disk/qcow.c:149-182 | adds a table as the most recently used, dropping the least recently used from a full cache; tree and list keep the same tables, at most 32, with no offset twice, exactly when its offset is not among those kept |
| `L2Cache.Cache.ReadTable` | hw/disk/qcow.c:241-271 | returns the table that the file has at the offset, whatever was read before |
| `Qcow.IndexExact` | hw/disk/qcow.c:220-239 | the reader's shifts and masks are the format's divisions by cluster and table size |
| `Qcow.ReachExact` | hw/disk/qcow.c:409-411 | the first-level index is in its table exactly below the product of the three sizes |
| `Qcow.ClusterBytes` | hw/disk/qcow.c:449-466 | within a cluster the flat disk is one stretch of the file, or zero |
| `Qcow.ReadsBack` | hw/disk/qcow.c:391-466 | a disk laid out cluster by cluster behind two levels of tables, with the mark for clusters in use, is the flat disk that the image stands for, and none of its clusters is taken for a compressed one |
| `Qcow.LaidOutStands` | hw/disk/qcow.c:391-466 | so that is the disk which the theorems about reading are about |
| `Qcow.Reader.FindEntry` | hw/disk/qcow.c:422-438 | the lookup through the cache finds the entry that the format defines |
| `Qcow.Reader.ReadCluster` | hw/disk/qcow.c:391-485 | returns the bytes of the flat disk up to the end of the cluster or the buffer, or an error exactly beyond the first-level table |
| `Qcow.Reader.ReadSectorSingle` | hw/disk/qcow.c:487-521 | the loop over clusters is the pure read of the flat disk |
| `Qcow.Reader.ReadSector` | hw/disk/qcow.c:523-541 | so is the loop over buffers |
| `SectorRead.ReadExact` | hw/disk/qcow.c:500-518 | a read reports its length and leaves the disk's bytes in the buffer exactly when its last piece begins on the disk and within reach of the first-level table |
| `SectorRead.ReadReports` | hw/disk/qcow.c:500-521 | when that table reaches as far as the disk, a read fails exactly when its last piece does not begin on the disk |
| `SectorRead.UnreachedReadClaimsSuccess` | hw/disk/qcow.c:495-515 | when it does not, a read that begins beyond its reach claims success and writes nothing |
| `SectorRead.ReadManyExact` | hw/disk/qcow.c:523-541 | buffers that are whole sectors, except the last, are filled from consecutive stretches of the disk exactly when each of them can be read |
| `SectorRead.InRangeIsReadable` | hw/disk/qcow.c:500-503 | everything that stays on the disk can be read |
| `SectorRead.JoinedIsDisk` | hw/disk/qcow.c:523-541 | the filled buffers joined together are one stretch of the disk |
| `VirtQueue.Queue.Pop` | include/kvm/virtio.h:100-110 | takes the head in the slot of the device's index and moves the index on, wrapping at 2^16 |
| `VirtQueue.Queue.IsAvailable` | include/kvm/virtio.h:117-127 | compares the two indices |
| `VirtQueue.Queue.UsedIdxAdvance` | hw/virtio/core.c:24-43 | moves the used index on by a batch, wrapping at 2^16, and writes nothing else |
| `VirtQueue.Queue.SetUsedElemNoUpdate` | hw/virtio/core.c:45-58 | writes one slot ahead of the used index and does not move the index |
| `VirtQueue.Queue.SetUsedElem` | hw/virtio/core.c:60-68 | writes one element and shows it |
| `VirtQueue.WrapExact` | include/kvm/virtio.h:108 | wrapping an index never changes its slot exactly when the queue size divides 2^16 |
| `VirtQueue.SizeExact` | include/kvm/virtio.h:100-127 | every run takes buffers once each in the order offered exactly when the queue size divides 2^16 |
| `VirtQueue.OutOfOrder` | include/kvm/virtio.h:100-110 | for every other size, a run from the start that hands out a buffer which was not the next one offered |
| `VirtQueue.PowerOfTwoSize` | hw/virtio/core.c:53 | every power of two below 2^16 is such a size |
| `VirtQueue.StepInv` | hw/virtio/core.c:24-68 | every step of driver and device keeps each entry that is still to be read in its slot |
| `VirtQueue.RunInOrder` | include/kvm/virtio.h:100-127 | on runs of any length buffers are taken once each in the order offered, the driver gets back what the device wrote in order, no unread slot is overwritten, and the indices tell whether there is more |
| `VirtQueue.BatchHidden` | hw/virtio/net.c:133-147 | while a batch is written nothing of it is visible, whatever the driver does meanwhile |
| `VirtQueue.BatchVisible` | hw/virtio/net.c:148-153 | one index step then shows the whole batch in order |
| `NetReceive.SpreadWhole` | util/iovec.c:22-36 | copying over an iovec loses nothing, overflows no piece and fills pieces in order |
| `NetReceive.MemcpyToIovec` | util/iovec.c:22-36 | the loop does that |
| `NetReceive.DealWhole` | hw/virtio/net.c:133-147 | the parts of a packet given to chains join to the packet, and every chain but the last is full |
| `NetReceive.CopyPacket` | hw/virtio/net.c:130-147 | the loop over the queue's chains, which waits for the driver when none is left, deals the packet out, and takes heads and writes used elements as a batch of the run model of the queue that shows nothing yet; it waits only when every head offered is taken |
| `NetReceive.CopiedIsDealt` | hw/virtio/net.c:133-147 | copying chain by chain is dealing the packet out and counting what each chain holds |
| `NetReceive.WithCountIsCounted` | hw/virtio/net.c:150-151 | writing the number of buffers from where the first piece begins changes those two bytes of the packet, as far as that piece goes, and nothing else of it |
| `NetReceive.CountedExact` | hw/virtio/net.c:150-151 | the guest then reads that number in the header if the first piece holds it, and otherwise some of it strays |
| `NetReceive.StrayOutside` | hw/virtio/net.c:150-151 | a byte of the count falls outside the first piece exactly when that is too short for the header |
| `NetReceive.ShortPieceStrays` | hw/virtio/net.c:150-151 | a first piece of 11 bytes: one byte falls behind it and the header keeps what was there |
| `NetReceive.Receive` | hw/virtio/net.c:130-153 | on the queue itself, with the driver offering more chains while the device waits: the used lengths add up to the packet, the buffers joined are the packet apart from the count, nothing of the count strays exactly when packet and first piece hold the header, every chain taken is returned exactly when the packet is not empty, the driver is waited for only as long as chains are lacking, and it sees all of it at the last event and nothing before |
| `DescChain.ChainUnique` | hw/virtio/core.c:80-93 | a chain is determined by where it begins |
| `DescChain.ChainMeans` | hw/virtio/core.c:80-93 | a chain is within the table, each descriptor but the last linked to the one after it, and the last to none or out of the table |
| `DescChain.ChainDistinct` | hw/virtio/core.c:80-93 | a chain that ends visits no descriptor twice |
| `DescChain.WalkEndsExact` | hw/virtio/core.c:111-122 | a walk ends exactly when it ends within as many descriptors as the table has |
| `DescChain.GetHeadIov` | hw/virtio/core.c:95-125 | lists the buffers of a chain, direct or indirect, in chain order, with the counts of both kinds adding up to its length; an indirect table said to be empty gives its first descriptor |
| `DescChain.GetInoutIov` | hw/virtio/core.c:137-166 | lists the device-written and the device-read buffers of a direct chain apart, each in chain order |
| `DescChain.SelectCounts` | hw/virtio/core.c:137-166 | the two parts together are the chain |
| `DescChain.SelectMeans` | hw/virtio/core.c:116-121 | each part has exactly the members that the device writes, or reads |
| `DescChain.IndirectIsDirect` | hw/virtio/core.c:105-109 | the same descriptors, moved along in another table, form a chain with the same buffers and the same parts |
| `DescChain.IndirectExact` | hw/virtio/core.c:105-109 | a chain of an indirect table, which has a descriptor for every 16 bytes of its length, is the request exactly when it has one descriptor or stays within the number of them modulo 2^16 |
| `DescChain.IndirectRequest` | hw/virtio/core.c:105-109 | so every chain of a table with fewer than 65536 descriptors is |
| `DescChain.LongTableIsCut` | hw/virtio/core.c:105-109 | a table of 65536 is cut to its first descriptor |
| `DescChain.SameRequest` | hw/virtio/core.c:95-125 | the same descriptors behind an indirect head and directly in a ring are both a request, with the same buffers and as many of each kind |
| `DescChain.ListBothWays` | hw/virtio/core.c:95-125 | and the walk lists the same buffers and counts for both |
| `P9Codec.FromLeLast` | hw/virtio/9p-pdu.c:78-99 | numbers on the wire have their most significant byte last |
| `P9Codec.LeRoundTrip` | hw/virtio/9p-pdu.c:78-99 | a number that fits its width survives the wire |
| `P9Codec.SentWhole` | hw/virtio/9p-pdu.c:203-212 | a string is sent whole with a length the receiver accepts exactly when it has no NUL and fewer than 32768 bytes |
| `P9Codec.RoundTrip` | hw/virtio/9p-pdu.c:67-265 | decoding what was encoded, wherever it stands in a message, gives the value back and takes as many bytes, exactly when its strings are such |
| `P9Codec.AllRoundTrip` | hw/virtio/9p-pdu.c:67-265 | the same for every format and every list of values |
| `P9Codec.NulCutsString` | hw/virtio/9p-pdu.c:203-212 | a string with a NUL arrives cut there |
| `P9Codec.LongStringRefused` | hw/virtio/9p-pdu.c:104-119 | a string of 32768 bytes is sent with a length that the receiver takes for a negative one |
| `P9Layout.LeBytes` | hw/virtio/9p-pdu.c:180-200 | a number is written as bytes |
| `P9Layout.LeOfFromLe` | hw/virtio/9p-pdu.c:78-99 | bytes are the encoding of the number that they decode to, which fits their width |
| `P9Layout.EncodeBytes` | hw/virtio/9p-pdu.c:170-265 | what is encoded is bytes, whatever the format, if the strings are |
| `P9Layout.WrittenBytes` | hw/virtio/9p-pdu.c:34-57 | buffers that hold bytes still do after a message is written into them |
| `P9Layout.EncodeOfDecode` | hw/virtio/9p-pdu.c:67-265 | encoding what was decoded gives the same bytes back exactly when its strings have no NUL |
| `P9Layout.QidLayout` | hw/virtio/9p-pdu.c:214-220 | a file identifier is the type, the version and the path at bytes 0, 1 and 5 of 13 |
| `P9Layout.StatMatches` | hw/virtio/9p-pdu.c:222-232 | every stat record whose numbers fit their fields can be sent, and no other |
| `P9Layout.StatLayout` | hw/virtio/9p-pdu.c:222-232 | its ten numbers are at their places in the first 41 bytes, the identifier from byte 8 on, and the four strings follow |
| `P9Pdu.ReadIsSlice` | hw/virtio/9p-pdu.c:18-31 | reading buffer by buffer reads the joined bytes, wherever they are cut |
| `P9Pdu.WriteIsOverlay` | hw/virtio/9p-pdu.c:43-56 | writing buffer by buffer overwrites the joined bytes, wherever they are cut |
| `P9Pdu.WriteKeepsSizes` | hw/virtio/9p-pdu.c:43-56 | writing moves no boundary between buffers |
| `P9Pdu.OverlayOn` | hw/virtio/9p-pdu.c:34-57 | two writes in a row are one write, even when the room runs out |
| `P9Pdu.OverlayMeans` | hw/virtio/9p-pdu.c:34-57 | after a write a byte is the new one where the data reaches and the old one elsewhere |
| `P9Pdu.Pdu.Read` | hw/virtio/9p-pdu.c:10-32 | returns the bytes from the read offset on, as many as there are, and moves the offset by that much |
| `P9Pdu.Pdu.Write` | hw/virtio/9p-pdu.c:34-57 | overwrites from the write offset on, as far as there is room, and moves the offset by that much |
| `P9Pdu.Pdu.DecodeVal` | hw/virtio/9p-pdu.c:67-168 | reads one value as the pure decoder would from the joined bytes |
| `P9Pdu.Pdu.Readf` | hw/virtio/9p-pdu.c:267-277 | reads a whole format that way |
| `P9Pdu.Pdu.EncodeVal` | hw/virtio/9p-pdu.c:170-265 | writes the encoding of one value, as far as there is room |
| `P9Pdu.Pdu.Writef` | hw/virtio/9p-pdu.c:279-289 | writes a whole format that way |
| `P9Pdu.ReadBack` | hw/virtio/9p-pdu.c:267-289 | what is written through one set of buffers is read back from any other set that holds the same bytes at any place |
| `VfioMsi.NextInv` | hw/vfio/pci.c:244-329 | every guest write keeps the states in step, whichever calls fail: a vector has a live route exactly when it is not physically masked, the empty flag tells whether a trigger is set, and enabled means INTx is gone |
| `VfioMsi.RunInv` | hw/vfio/pci.c:32-223 | so does every sequence of writes |
| `VfioMsi.InitialInv` | hw/vfio/pci.c:937-993 | the initial state is in step |
| `VfioMsi.EnabledInstalls` | hw/vfio/pci.c:32-137 | an enable that succeeds while MSI-X is enabled and unmasked leaves each vector's trigger as its descriptor exactly when it has a route number |
| `VfioMsi.RunInStep` | hw/vfio/pci.c:66-108 | as long as installing all at once never fails, the prepared descriptors are those installed |
| `VfioMsi.InStepExact` | hw/vfio/pci.c:86-108 | a guest write, to the capability or to a vector, breaks that exactly when it is refused all at once on an enabled capability that is still empty and lacks a vector |
| `VfioMsi.RunInStepExact` | hw/vfio/pci.c:244-329 | the prepared descriptors are those installed all along a run of guest writes exactly when no write of the run is such |
| `VfioMsi.RefusalLeavesStale` | hw/vfio/pci.c:86-108 | a run from the start on which that happens, and that the next enable repairs it |
| `VfioMsi.UpdatedInv` | hw/vfio/pci.c:168-223 | updating a vector keeps its route and mask in step and never takes an installed descriptor away |
| `VfioRoutes.UpdatedExact` | hw/vfio/pci.c:168-223 | updating a vector fails exactly when a call it needs does, and otherwise its route is live exactly when it is not masked |
| `VfioRoutes.FollowsExact` | hw/vfio/pci.c:244-297 | a guest write takes the route of a vector out of step with its mask exactly when it is to that vector, a call fails, and the route would have had to change |
| `VfioRoutes.RunFollowsExact` | hw/vfio/pci.c:244-329 | all along a run the route follows the mask exactly when no write of the run does that |
| `VfioRoutes.DisabledExact` | hw/vfio/pci.c:139-166 | a disable succeeds exactly when nothing was enabled or the host agrees, and then nothing is installed; else nothing changes |
| `VfioRoutes.RunSettled` | hw/vfio/pci.c:244-329 | after any run in which every call succeeds the vectors, flags and triggers are as the last writes asked for |
| `VfioRoutes.RunReaches` | hw/vfio/pci.c:244-329 | then, with MSI-X enabled and not masked, an interrupt of the device reaches the guest exactly when the last write to its vector unmasked it, and with MSI-X disabled none does |
| `VfioRoutes.MaskedYetReaches` | hw/vfio/pci.c:83-113 | masking the whole function afterwards does not stop it |
| `VfioMsi.Device.InstallRange` | hw/vfio/pci.c:86-108 | the loop and the call for all vectors are the pure step |
| `VfioMsi.Device.InstallSingly` | hw/vfio/pci.c:110-136 | the loop over single vectors, up to a refusal, is the pure step |
| `VfioMsi.Device.EnableMsis` | hw/vfio/pci.c:32-137 | enabling is the pure step |
| `VfioMsi.Device.DisableMsis` | hw/vfio/pci.c:139-166 | disabling is the pure step |
| `VfioMsi.Device.UpdateMsiEntry` | hw/vfio/pci.c:168-223 | updating a vector is the pure step and changes no other vector |
| `VfioMsi.Device.TableWrite` | hw/vfio/pci.c:244-297 | a write to a vector's control word is an event of the run model |
| `VfioMsi.Device.CapWrite` | hw/vfio/pci.c:299-329 | a write to the capability's flags is an event of the run model |
| `MemBanks.HitsIsSharing` | src/kvm.c:161-165 | the test on first and last addresses is sharing an address |
| `MemBanks.HitsOriginal` | src/kvm.c:168-183 | a range that has grown by merging meets a bank exactly when what was asked for does |
| `MemBanks.Memory.Register` | src/kvm.c:153-221 | refuses exactly when the range meets a bank and the two are not both reserved; on success no two banks meet, exactly the range is added to what is covered and banks in use stay, and a range that has nothing to merge with comes first in the list; a refusal leaves the list disjoint exactly when the first bank met was not a reserved one to merge with |
| `MemBanks.MergeBeforeRefusal` | src/kvm.c:161-183 | a reserved range that meets a reserved bank and then memory: the merge is made, then the range is refused, and two banks meet |
| `MemBanks.Memory.GuestFlatToHost` | src/kvm.c:223-237 | the scan is the translation by the first bank that holds the address |
| `MemBanks.Memory.HostToGuestFlat` | src/kvm.c:239-253 | the scan is the translation back |
| `MemBanks.ToHostZero` | src/kvm.c:223-237 | the answer is 0 exactly for an address in no bank, or at the start of one whose host address is 0 |
| `MemBanks.ToGuestZero` | src/kvm.c:239-253 | back it is 0 exactly for an address in no host range, or at the start of the first that has it if that bank is at guest address 0 |
| `MemBanks.TranslationRoundTrip` | src/kvm.c:223-253 | from a host address of a bank to the guest and back is the identity; from a guest address of a bank to the host and back is so exactly when no bank before it in the list has that host address too |
| `MemBanks.OwnHostRange` | src/kvm.c:223-253 | both are the identity on a bank whose host range meets no other bank's, however those lie to each other |
| `MemBanks.ReservedShareHost` | include/kvm/kvm.h:100-103 | two reserved banks and memory: the second reserved one does not translate back, memory does |

## Left out

- The parent pointer and the colour of a tree node share one word; the model keeps them in two fields that are written together.
- The callbacks of augmented trees, `rb_last`, `rb_prev`, postorder walks and `rb_replace_node`: the callbacks are empty here, the rest is easy.
- `Bus.IoPorts.Register`: a count so large that the sum with the first port overflows a C integer is not modelled; C leaves the result undefined.
- `Bus.MmioMap.Register`: coalesced regions and the ioctl for them are not modelled.
- `XicsDevice.Controller.IcsReject`: rejecting the interprocessor interrupt leaves the sources unchanged; in C that number lies outside the array of sources.
- XICS: CPU and interrupt numbers given by callers inside the monitor are valid; `rtas_get_xive`, `rtas_int_off` and `rtas_int_on` are not modelled.
- Liveness of pausing and of running a task on all vCPUs is stated as what can and what cannot come about; that a scheduler which is fair brings it about is not.
- `PauseLock.PausedExcludesLookups`: all vCPUs are running and the pausing thread is not one of them.
- Memory is sequentially consistent in all protocols; barriers are not modelled.
- Jobs are not initialised again while in flight; thread creation and the joining of workers that have exited are not modelled. Testing whether the pool runs and going to sleep is one step of a worker, which holds the pool's mutex meanwhile.
- `Qcow.Reader.ReadCluster`: images have no compressed clusters, and reads of the file succeed.
- QCOW1, writing to an image, reference counts and the flush of dirty tables are not modelled; images are opened read-only.
- `Qcow.Reader.ReadSector`: a buffer is the bytes written into it so far; buffers that overlap each other in memory are not modelled.
- L2 tables are kept in the interval tree as intervals of length one, which makes the same comparisons as the cache's own tree code.
- `VirtQueue.Queue.IsAvailable`: a queue that the driver has not set up yet, which C tells by a null pointer, is not modelled.
- `VfioMsi.Device.TableWrite`: requires a vector of the table, which the C code does not test; writes that do not touch the control word change only the message.
- Suppression of notifications by event index, and byte order conversion for a guest of the other endianness.
- `NetReceive.Receive`: the driver offers more chains only when the device waits for one, no more than the queue has slots for, and in the end enough for the packet; if it never does, the C loop waits for ever. Each chain has at least one buffer, all of them for the device to write. `VirtQueue.BatchHidden` holds whatever the driver does.
- `DescChain.GetHeadIov`: requires a chain that ends, in a table that is in memory; on one that does not end the C loop never ends. `DescChain.WalkEndsExact` says which do.
- `DescChain.GetInoutIov`: requires links inside the table, which the C code does not test here.
- `P9Pdu.Pdu.DecodeVal`: requires that the bytes are there and that string lengths are not negative; in C the values are undefined otherwise, and the error of a failed allocation may be overwritten by a later field.
- The layouts of the 9P formats I and A, which are only decoded or only encoded, and the file operations of 9P.
- MSI without the X: the same install and update code, with a different register layout. Reads of the vector table and of pending bits.
- The kernel's route table behind `irq__update_msix_route`.
- `MemBanks.Memory.Register`: ranges do not run past the end of the address space; a failed allocation is not modelled.
- Failures of memory allocation, everywhere.
- Consoles, timers, keyboards, checksums, PCI address allocation, firmware tables, the user interface and the command line: easy members or foreign calls.
