# Proofs about the TOS desktop kernel

A Dafny model of the stateful parts of the GEM application environment (AES) and of three small parts of GEMDOS and the
C support code: window rectangle lists, the window database and stacking order, the event kernel, object trees, the pool
of system blocks, 32-bit division with number printing, and the line editor of the console. It describes the plain build
(`BINEXACT` and `TP_WINX` off, `NEWWIN` on except for the older rectangle lists).

`dafny verify dfyconfig.toml` checks everything.

## How it is laid out

Code that changes things step by step is a class with the source's fields, and loops are loops. Heap nodes are indices
into sequence fields, NULL is `NIL` (-1), and a root pointer that the source uses as if it were a node is the explicit
sentinel `ROOT` or `AT_ROOT`. Ghost fields hold the sequences that the links stand for and, per node, the list it is on.
Next to each class stands a module of values: what a list, a run or a screen means, with the laws about it as lemmas.

| files | subject |
|---|---|
| `Geometry`, `RectArena`, `RectLists` | rectangles as sets of pixels; visible-region lists cut and merged in place |
| `OrectPool`, `OrectRegions`, `OrectLists` | the older lists over one shared free list, rebuilt window by window |
| `Windows`, `WindowTable`, `WindowStore` | hash table, handle list and compacting block storage as one finite map |
| `WindowGeometry`, `WindowOrder`, `LeftLinks` | work area, border and minimum size; the stacking order; links left in closed windows |
| `EventLists`, `EventTable`, `EventBlocks` | event blocks from start to return, waiting for one or several |
| `DelayList`, `MessagePipe`, `UpdateLock`, `Dispatcher` | timers, message pipe, nested update lock, process lists and fork ring |
| `TreeShape`, `TreeWalk`, `TreeOrder`, `ObjectTree` | threaded object trees: edits, walk, hit test |
| `BlockPool`, `MemPool` | system blocks and the compaction of memory descriptors |
| `LongDivision`, `NumberPrint` | exact division in 16-bit steps; digits of a long |
| `LineEditor` | the line editor and what stands on the screen |
| `Runs` | short runs through several of these |
| `Chains`, `SlotCount`, `ListCount` | linked lists and counts, used by all |

## What turned out not to hold

Each of these is a lemma or an if-and-only-if in a contract.

- A rectangle above cuts exactly only if its height is zero, or positive with a non-negative width (`Geometry.CutExactIff`).
- Giving back a rectangle list leaves a pool without any block if it had several and nobody else uses a node
  (`RectLists.RectPool.DelList`).
- Opening a window on an empty screen breaks the stacking order if its `under` link is left over from before
  (`WindowOrder.WindowStack.Open`), and moving the lowest of several windows to the front leaves `botw` naming it
  (`WindowOrder.WindowStack.SetTop`). With the desktop open at the bottom neither can happen to any other
  window. A run that goes wrong is `Runs.OpenedWrong`.
- Asking for the rectangle list of a closed window reads through NULL if its `ontop` link, left from the time it was open,
  leads to a window deleted since (`RectLists.RectPool.GenRList`, with the run `Runs.ListedWrong`). For an open window this
  cannot happen (`LeftLinks.OpenTrail`).
- For a window whose only title part is the mover bar, `w_adjust` and `wm_calc` disagree on the work area, and the minimum
  size may not leave room for it (`WindowGeometry.WorkAgreesIff`, `WindowGeometry.MinWorkIff`).
- A timer event started while ticks are being counted may complete early, because the ticks counted so far are charged to
  it as well (`DelayTimes.OnTimeIff`); and starting one may make an event that already waits complete early
  (`DelayTimes.OthersOnTimeIff`, with an example in `DelayTimes.EarlyByLaterStart`).
- A timer event for less than no ticks stops all timers: from then on nothing that is started or waits for a time
  completes, in any process, even if that event is cancelled (`DelayTimes.StopsIff`, `DelayList.DelayQueue.Delay`).
- The event blocks can run out, and `iasync` then goes on with a NULL one: five for each process are too few when each asks
  `ev_multi` for six things (`EventBlocks.EventKernel.EvMulti`, `EventBlocks.EventKernel.EnoughEach`, with the run
  `Runs.SixEach`).
- A writer can stay blocked although its message has room in the pipe, and writers are served last one first
  (`PipeContents.ReadBusyIff`, `PipeContents.RoomLeft`, `PipeContents.LastWriterFirst`).
- The update lock is handed to the process that asked last, and `unsync` does not look who calls it
  (`LockState.LastComesFirst`, `LockState.EndSoundIff`).
- `ob_order` of an only child leaves the tail link of the parent unset; for an only child with another position than the
  first, and for an index beyond the siblings, it leaves the list of children when the object is already out of the tree
  (`ObjectTree.Tree.ObOrder`).
- A memory descriptor that is on no list is lost when it lies in the block chosen to be emptied for a file
  (`MemPool.MdPool.GetOsm`, `MemPool.LooseKeptIff`, with an example in `MemPool.LooseLost`). Freeing a descriptor that is
  still on a list leaves a pool that nothing makes sound (`MemPool.MdPool.XmdFree`).
- WF_BOTTOM follows a NIL link if the desktop is gone, on top, or closed with a link to nothing, or if the window asked
  for is the lowest one, which the desktop is at most times; and there are cases in which no order fits the links after it
  (`WindowOrder.WindowStack.Tobot`, with the run `Runs.LoweredWrong`).
- The older rectangle lists do not check for negative sizes; such a window cuts others wrongly
  (`OrectRegions.PartitionIffDrawable`).
- A message of 16 bytes whose word 2 is not zero derails the search for a redraw behind it (`PipeContents.WordTwoIff`).
- The comment above `genrlist` calls the list non-optimized; the code merges rectangles, and the model follows the code.

## Model

| member | source | states |
|---|---|---|
| Geometry.OverlapsIffPixel | aes/newwrect.c:252-278 | for two rectangles with pixels the overlap test of brkrect holds exactly if they share one; a rectangle without pixels shares none |
| Geometry.CutExactIff | aes/newwrect.c:252-341 | cutting removes exactly the pixels of the upper rectangle, each remaining one kept once, from every rectangle below it, if and only if its height is zero, or positive with a non-negative width |
| Geometry.PiecesAre | aes/newwrect.c:290-393 | the pieces and their order: the whole width above, left and right at the height of the upper rectangle, the whole width below |
| Geometry.ImproperCut | aes/newwrect.c:252-341 | for every other upper rectangle there is one below it that is cut wrongly |
| Geometry.CoverCutAll | aes/newwrect.c:203-219 | after all windows above have cut the list, a pixel is covered as often as before, or not at all if one of them contains it |
| Geometry.VisibleExactly | aes/newwrect.c:203-219 | the pieces left of one rectangle cover each of its visible pixels once and nothing else |
| Geometry.DisjointFromCover | aes/newwrect.c:173-240 | a list that covers no pixel twice is pairwise disjoint |
| RectArena.MergedTiles | aes/newwrect.c:403-420 | merging two stacked rectangles keeps the covered pixels and makes nothing empty |
| RectArena.PairTried | aes/newwrect.c:222-237 | one turn of the merge loop settles a pair, or merges it without unsettling any earlier rectangle |
| RectArena.RegionCorrect | aes/newwrect.c:173-240 | cut and merged, the list is pairwise disjoint, without empty rectangles, inside the start rectangle, exactly the visible pixels, and empty exactly if nothing is visible |
| RectArena.OneBlockLeft | aes/newwrect.c:128-160 | in a pool with several blocks some node other than the given used one is in use |
| RectArena.NothingLeft | aes/newwrect.c:83-164 | giving a list back empties the pool exactly if no node was in use before the list was built |
| RectLists.RectPool.NewRect | aes/newwrect.c:30-70 | hands out one node that was not in use, with no successor; all nodes in use and their contents stay, and per-block counts stay right |
| RectLists.RectPool.constructor | aes/newwmlib.c:94-150 | one block of unused nodes: a sound pool that can hand out nodes |
| RectLists.RectPool.DelRect | aes/newwrect.c:83-164 | the node leaves its list and the pool, nothing else changes; the pool can go on handing out nodes |
| RectLists.RectPool.DelList | aes/newwrect.c:83-164 | the whole list is given back, nodes of others stay; the pool can go on exactly if it has one block or other nodes are in use |
| RectLists.RectPool.BrkRect | aes/newwrect.c:252-278 | broken exactly if the rectangles overlap, and then the sides are those that stick out |
| RectLists.RectPool.MkRect | aes/newwrect.c:352-393 | one new node that holds the piece of the given side |
| RectLists.RectPool.ChgrList | aes/newwrect.c:290-341 | in the list the old node is replaced, in place, by the pieces in the order top, left, right, bottom; the old node is free again |
| RectLists.RectPool.MrgRect | aes/newwrect.c:403-420 | absorbs exactly if the second rectangle lies directly below the first, and then grows the first by it |
| RectLists.RectPool.CutPass | aes/newwrect.c:203-219 | walking the list while it is being spliced cuts every rectangle of it once, by one window above |
| RectLists.RectPool.MergePass | aes/newwrect.c:222-237 | afterwards no rectangle can absorb a later one, and the same pixels are covered |
| RectLists.RectPool.CutUncovered | aes/newwrect.c:190-219 | before merging, the list is the start rectangle cut by the shadowed rectangle of every window on the ontop chain, nearest first; the source reads through NULL if and only if the chain leads to a window that is gone and those before it do not hide everything |
| RectLists.RectPool.GenRList | aes/newwrect.c:173-240 | the nodes taken from the pool are exactly the list, which is settled; for positive sizes a pixel lies in it if and only if it lies in the work area, or in the whole window with its shadow, as was asked for, and under no window above with its shadow; no list and no change for an unknown window; for a closed window the source reads through NULL if and only if its chain, left from an earlier time, leads to a window that is gone and those before it do not hide everything |
| Windows.TrailUnique | aes/newwrect.c:200-206 | a window has one chain above it |
| LeftLinks.TrailExists | aes/newwrect.c:200-206 | from every window, closed ones too, the chain comes to an end, at NIL or at a window that is gone, as long as the left links form no circle |
| LeftLinks.OpenTrail | aes/newwrect.c:200-206 | the chain of an open window is the windows above it and ends at NIL |
| LeftLinks.NoCircleStep | aes/newwmlib.c:383-441 | closing one window or creating one lets the left links form no circle |
| LeftLinks.NoCircleClosed | aes/newwmlib.c:383-441 | nor does closing a window that stands in the order |
| Runs.ListedWrong | aes/newwmlib.c:625-643 | a run after which the list of a closed window is built through NULL: open three, close the second, delete the third |
| OrectPool.NodesConserved | aes/gemwrect.c:71-225 | the nodes of the free list and of all window lists together are as many as the pool ever had; every node is on the free list or on the list of exactly one window |
| OrectLists.WindowRects.AddPiece | aes/gemwrect.c:82-116 | a node of the free list is linked in before the broken one and holds its piece; every other list is as it was |
| OrectLists.WindowRects.constructor | aes/gemwrect.c:50-60 | all nodes are on the free list, no window has a rectangle |
| OrectLists.WindowRects.BrkRct | aes/gemwrect.c:120-152 | no overlap, no change; otherwise the pieces stand where the rectangle stood, and its node is free again |
| OrectLists.WindowRects.MkRect | aes/gemwrect.c:156-184 | one pass cuts the list of one window by the new rectangle and sets its broken flag exactly if something was cut |
| OrectLists.WindowRects.NewRect | aes/gemwrect.c:188-225 | brings the lists of all earlier windows and of the window itself up to date; no node of the pool is lost or made; fails only if the free list is empty |
| OrectLists.WindowRects.RedoAll | aes/gemwrect.c:188-225 | after newrect has run once for every window in order, each list is its true rectangle cut by those of all later windows, starting from any earlier lists; the number of nodes on the free list and all window lists is what it was |
| OrectRegions.RedoneDone | aes/gemwrect.c:188-225 | the step of that run: what holds for the first i windows holds for one more |
| OrectRegions.ScreenPartition | aes/gemwrect.c:188-225 | a pixel lies in exactly one rectangle of a window if that window is the last in order to contain it, and in none otherwise, for true rectangles that are empty or of positive size |
| OrectRegions.PartitionIffDrawable | aes/gemwrect.c:120-184 | a true rectangle cuts every rectangle with pixels rightly, removing exactly the pixels it contains, if and only if it is empty or of positive size |
| OrectRegions.SameAsNewer | aes/gemwrect.c:188-225 | when every window has a size, the list of a window is what the newer code builds by cutting its rectangle by those of the later windows, nearest first |
| Runs.BothPrograms | aes/gemwrect.c:188-225 | the older and the newer program build the same list, before merging, from the same rectangles with a size |
| OrectRegions.PixelOwner | aes/gemwrect.c:188-225 | every pixel of any window belongs to exactly one window, whatever the rectangles are |
| OrectRegions.SpoiledIffHidden | aes/gemwrect.c:156-225 | for the same rectangles, the broken flag is set exactly if a later window shares a pixel with the window |
| WindowTable.LiveHandles | aes/newwmlib.c:1217-1306 | a handle is on the handle list exactly if the hash table has it |
| WindowTable.HandleInserted | aes/newwmlib.c:1263-1306 | a handle put between its neighbours keeps the list ascending and linked by nxthndl |
| WindowTable.HandleRemoved | aes/newwmlib.c:483-495 | a handle taken out keeps the list ascending and linked |
| WindowTable.GapFound | aes/newwmlib.c:1263-1306 | the handle after the first run of handles is the least one not in use |
| WindowTable.MovedOk | aes/newwmlib.c:503-524 | copying a window to another slot and leading its hash chain there keeps chains and map right |
| WindowTable.BlocksGrow | aes/newwmlib.c:1217-1253 | a new block after a full one keeps every block but the last full |
| WindowStore.WindowDb.SrchWp | aes/newwmlib.c:1334-1350 | finds precisely the live window with the handle; NIL for every other handle, negative ones too |
| WindowStore.WindowDb.constructor | aes/newwmlib.c:94-150 | no window, one block of unused slots: a sound database |
| WindowStore.WindowDb.NewWp | aes/newwmlib.c:1217-1253 | a slot set aside in the last block or in a new one; no window is touched |
| WindowStore.WindowDb.NewHndl | aes/newwmlib.c:1263-1306 | while handle 0 is live the new handle is the least one not in use; otherwise it is one below the first |
| WindowStore.WindowDb.StoreWp | aes/newwmlib.c:1314-1322 | the window becomes reachable under its handle, all others stay |
| WindowStore.WindowDb.Create | aes/newwmlib.c:167-327 | the map from handles to windows gains one new closed window and keeps all others |
| WindowStore.WindowDb.Compact | aes/newwmlib.c:496-538 | filling the gap with a window of the last block leaves the map from handles to windows as it was, and every block but the last full |
| WindowStore.WindowDb.Delete | aes/newwmlib.c:453-538 | the map loses exactly the deleted handle; chains, handle list and blocks still agree on it |
| WindowGeometry.WmCalc | aes/newwmlib.c:1007-1073 | the border or the work area for one and the same set of border widths, which depend on the parts of the window as the rows and columns of character boxes do |
| WindowGeometry.CalcRoundTrip | aes/newwmlib.c:1007-1073 | the two directions of wm_calc undo each other |
| WindowGeometry.WmMin | aes/newwmlib.c:1082-1160 | the minimum size in rows and columns of character boxes, and that a window of at least this size has room for title, information line, menu and both bars |
| WindowGeometry.WorkAgreesIff | aes/newwmlib.c:1007-1853 | w_adjust and wm_calc find the same work area for all rectangles exactly if the mover bar is not the only title part |
| WindowGeometry.AdjustKeepsWork | aes/newwmlib.c:1650-1853 | a work area that is the one of wm_calc stays so, through the move-only shortcut too |
| WindowGeometry.WAdjust | aes/newwmlib.c:1650-1853 | a window that is only moved takes its work area along; else the work area is laid out anew, a mover bar counting as a title |
| WindowGeometry.MinSizeFits | aes/newwmlib.c:338-371 | a window opened in at least its minimum size has a work area of non-negative size |
| WindowGeometry.MinWorkIff | aes/newwmlib.c:1082-1853 | the work area that w_adjust computes has a non-negative size; for a window with only a mover bar, exactly when the height it is opened with holds the two strips outside the work area, which below the minimum size depends on the height of the bars |
| WindowGeometry.MoverOnlyTooSmall | aes/newwmlib.c:1082-1853 | a window with nothing but a mover bar can get a work area of negative height |
| ZOrder.UnhookedStacked | aes/newwmlib.c:383-441 | linking the neighbours of a window to each other leaves a mutually inverse list without it |
| ZOrder.HookedStacked | aes/newwmlib.c:1359-1421 | linking a window in at any place leaves a mutually inverse list with it there |
| ZOrder.OrderUnique | aes/newwmlib.c:1359-1514 | links and top window determine the order |
| ZOrder.AboveIsOntopChain | aes/newwmlib.c:1359-1514 | the windows above one in the order are what the rectangle lists meet on its ontop chain |
| ZOrder.MovedKeepsOrder | aes/newwmlib.c:1359-1514 | moving one window keeps any two others in their order |
| WindowOrder.ToppedSet | aes/newwmlib.c:1400-1421 | the link writes of totop for WF_TOP take the window out and put it on top |
| WindowOrder.Bottomed | aes/newwmlib.c:1462-1503 | the link writes of tobot take the window out and put it just above the lowest one |
| WindowOrder.WindowStack.Totop | aes/newwmlib.c:1359-1452 | exactly the link writes for each of the three callers, top and bottom included; no change for unknown or closed windows |
| WindowOrder.WindowStack.Create | aes/newwmlib.c:167-327 | a closed window of the kind asked for, without size or links, comes in; the order of the open ones stays |
| WindowOrder.WindowStack.Delete | aes/newwmlib.c:453-538 | the window leaves the order if it is open, and then is gone; the others keep their order, kind and rectangles, and the closed ones their links too |
| WindowOrder.WindowStack.Open | aes/newwmlib.c:338-371 | the window goes on top, where it was asked to be and in at least its minimum size; the order stays sound if and only if some window was open or the under link of the opened one is NIL; work areas stay right |
| Runs.OpenedWrong | aes/newwmlib.c:338-371 | a run that spoils the order: open two, close both, the upper one first, and open it again |
| WindowOrder.WindowStack.Close | aes/newwmlib.c:383-441 | the window leaves the order, the others keep theirs; it has no size then, remembers the rectangle it had, and its links are left as they are |
| WindowOrder.WindowStack.SetTop | aes/newwmlib.c:886-889 | the window moves to the front; the record of the bottom window stays right if and only if it was not the bottom one itself, or the only one |
| WindowOrder.WindowStack.Tobot | aes/newwmlib.c:1462-1514 | for every order of the open windows, with the desktop anywhere, closed or gone: whether the source follows a NIL link or one to a window that is gone, the exact link writes, and whether the windows are in an order afterwards, the moved one just above the desktop; with the desktop at the bottom the only handle that goes wrong is that of the desktop |
| WindowOrder.LoweredOrder | aes/newwmlib.c:1462-1514 | the open windows are in an order again if and only if the desktop is open and not the one asked for, or closed with its link left to the lowest window |
| WindowOrder.LoweredOpen | aes/newwmlib.c:1462-1514 | with the desktop open at any place, the window comes to stand just above it |
| WindowOrder.LoweredLeft | aes/newwmlib.c:1462-1514 | with the desktop closed and its link left to the lowest window, the window becomes the lowest one |
| WindowOrder.LoweredSelf | aes/newwmlib.c:1462-1514 | asked for while it has windows below, the desktop comes to stand above itself |
| WindowOrder.LoweredAstray | aes/newwmlib.c:1462-1514 | with the link of the closed desktop left to another window, no order fits the links |
| Runs.LoweredWrong | aes/newwmlib.c:1462-1514 | a run after which lowering follows a NIL link: open the desktop and a window, set the desktop to the front |
| WindowOrder.WindowStack.SetCurr | aes/newwmlib.c:758-799 | the window is kept below the menu line, its size stays the one asked for; only the rectangles of the one window change, and its work area stays right |
| WindowOrder.WindowStack.Find | aes/newwmlib.c:949-963 | the topmost open window at the point; NIL exactly if there is none |
| DelayTimes.InsertDue | aes/gemasync.c:158-209 | a new timer event is due at its time and every other one when it was before |
| DelayTimes.RemoveDue | aes/gemasync.c:78-99 | cancelling a timer event leaves all other deadlines |
| DelayTimes.PassedDue | aes/gemflag.c:41-83 | exactly the events due within c ticks complete, and every remaining deadline comes c nearer |
| DelayTimes.FiresAfter | aes/gemflag.c:41-83 | over any number of clock ticks, an event has completed exactly if its deadline, counted from the last expiry, and the next count have been reached |
| DelayTimes.OnTimeIff | aes/gemasync.c:158-209 | a new event completes after exactly its ticks if and only if it asks for more than none, no count below zero has stopped the clock, and no ticks are being counted, none has been counted yet, or it is due before the next count |
| DelayTimes.StoppedWhenDone | aes/gemflag.c:41-83 | the tick that completes everything stops the clock, so that what is started next completes after exactly its ticks |
| DelayTimes.OthersOnTimeIff | aes/gemasync.c:158-209 | an event already waiting still completes when it would have if and only if the new one asks for more than no ticks, and for no less than the ticks to the next count unless the waiting one is due no earlier than the ticks of the whole count; the cases in which no ticks are counted, or the clock is stopped, included |
| DelayTimes.EarlyByLaterStart | aes/gemasync.c:158-209 | six ticks into a wait for ten, timers for two ticks and for one tick are started: the one for two completes after one tick, as it would not have without the other |
| DelayTimes.OthersOnTime | aes/gemasync.c:158-209 | while the ticks counted and those to the next count make up the time of the first event, it always does, unless the new one asks for less than no ticks |
| DelayTimes.CancelOnTime | aes/gemasync.c:78-99 | cancelling one event does not change when the others complete, nor leave one overdue |
| DelayTimes.StopsIff | aes/gemasync.c:158-209 | an event started for less than no ticks, and no other, stops the timers for good: no run of ticks, starts and cancellations completes any event again |
| DelayTimes.NoneCompletes | aes/ratrbp.S:171-187 | with a count below zero no run completes anything |
| DelayTimes.CountingKept | aes/gemflag.c:41-83 | over every run nothing on the list is overdue while the count is not below zero |
| DelayList.DelayQueue.Delay | aes/gemasync.c:158-209 | for every count, negative ones too, the block enters the doubly linked delta list before the first one due no earlier, with the deadline asked for, one tick for none; no block is overdue afterwards if and only if the count is not negative |
| DelayList.DelayQueue.constructor | aes/geminit.c:374-430 | nothing waits, no ticks are counted |
| DelayList.DelayQueue.Takeoff | aes/gemasync.c:78-99 | the block leaves the list and its waiting time goes to the one behind it, whether or not blocks are overdue |
| DelayList.DelayQueue.Evremove | aes/geminput.c:414-424 | the first block leaves the list and is the next completed one |
| DelayList.DelayQueue.Tchange | aes/gemflag.c:41-83 | completes exactly the expired blocks, in the order of the list; the next count is the time of the first one left, counted from zero; with none left both counters stay |
| DelayList.DelayQueue.Tick | aes/ratrbp.S:171-187 | one tick counts, if ticks are counted, and tchange follows when the count is reached |
| EventLists.BothInsert | aes/gemasync.c:60-74 | insertion keeps e_link and e_pred inverse to each other |
| EventLists.BothUnlink | aes/gemasync.c:78-99 | taking a block out anywhere keeps e_link and e_pred inverse |
| EventTable.MasksTaken | aes/gemasync.c:240-281 | a new event gets a bit of its own: pending and completed masks of every process still are those of its blocks |
| EventTable.MasksCompleted | aes/gemaints.c:66-77 | pending and completed masks stay those of the blocks when an event completes |
| EventTable.MasksGiven | aes/gemasync.c:285-320 | pending and completed masks stay those of the blocks when a block is given back |
| EventTable.TakeLists | aes/gemasync.c:120-150 | a block moves from the free list to the list of one process |
| EventTable.GiveLists | aes/gemasync.c:285-320 | a block moves back, from anywhere in the list of its process |
| EventBlocks.EventKernel.Somewhere | aes/gemasync.c:120-366 | every block is on the free list, or with exactly one process and on exactly one wait chain or the list of completed events |
| EventBlocks.EventKernel.FreeLeft | aes/gemasync.c:120-150 | the free blocks are all blocks less those that the processes hold |
| EventBlocks.EventKernel.EnoughEach | aes/aesdefs.h:47-49 | with m blocks for each process, one is given all of its m as long as none has more than m |
| Runs.SixEach | aes/gemevlib.c:346-373 | a run in which three processes with five blocks each ask for six things each, and the third gets only three blocks |
| EventBlocks.EventKernel.constructor | aes/geminit.c:374-430 | all blocks free, no process waits |
| EventBlocks.EventKernel.Iasync | aes/gemasync.c:120-281 | takes the first free block, gives it the lowest bit that is not in use, and puts it on one chain, in front or behind the block asked for; completed at once on the list of completed events; the source goes on with a NULL block exactly if none is free |
| EventBlocks.EventKernel.Complete | aes/gemaints.c:66-77 | the block moves from its wait chain to the completed ones and its bit is told to its process |
| EventBlocks.EventKernel.Aret | aes/gemasync.c:285-320 | gives back exactly a completed block with the bit; unknown and pending bits are told apart and change nothing |
| EventBlocks.EventKernel.Acancel | aes/gemasync.c:324-366 | takes back exactly the events asked for that have not completed; returns the bits of those that have |
| EventBlocks.EventKernel.Mwait | aes/gemasync.c:103-115 | while a process waits exactly those waiting events complete that others complete; without need to wait nothing does |
| EventBlocks.EventKernel.EvBlock | aes/gemevlib.c:87-95 | returns if and only if a block is free and its event completes; then blocks, masks and chains are as if it had never been started |
| EventBlocks.EventKernel.EvMulti | aes/gemevlib.c:346-422 | the blocks suffice if and only if the free ones, all less those held, are as many as the requests; then returns if and only if a request is met, with exactly the requests that are; blocks, masks and chains are then as if none had been started |
| PipeContents.WriteSound | aes/gemqueue.c:104-150 | for messages of 16 bytes with word 2 zero, a write keeps: bounded size, a blocked reader only at an empty and a blocked writer only at a non-empty queue, one redraw per window, order of all other messages |
| PipeContents.WordTwoIff | aes/gemqueue.c:63-90 | the search for a redraw of the same window finds every one behind a message of 16 bytes if and only if word 2 of that message is zero, for even values not below zero |
| PipeContents.ReadSound | aes/gemqueue.c:104-150 | a read keeps the same |
| PipeContents.WriteIs | aes/gemqueue.c:104-150 | a write waits, or its message is accepted and goes to the first waiting reader, if there is one; which events complete, and in what order |
| PipeContents.ReadIs | aes/gemqueue.c:104-150 | a read waits, or takes the first message, and then the message of the first waiting writer is accepted; which events complete, and in what order |
| PipeContents.AcceptedIs | aes/gemqueue.c:42-98 | a message goes behind the others, or into the first redraw of its window |
| PipeContents.CancelSound | aes/gemasync.c:324-366 | so does cancelling a waiting reader or writer, wherever it stands |
| PipeContents.WriteBusy | aes/gemqueue.c:104-150 | a write or a cancelled wait lets no writer wait while there is room |
| PipeContents.ReadBusyIff | aes/gemqueue.c:104-150 | a read does so if and only if two writers wait and the message of the first melts into a queued redraw |
| PipeContents.RoomLeft | aes/gemqueue.c:104-150 | a full queue for eight messages for which that happens |
| PipeContents.LastWriterFirst | aes/gemqueue.c:104-150 | of two writers that find the queue full, the later one is served first |
| PipeContents.NeverBothStuck | aes/gemqueue.c:104-150 | readers and writers are never blocked at the same time |
| PipeContents.RedrawCovers | aes/gemqueue.c:42-98 | the queued redraw of a window contains every rectangle accepted for it since the last read |
| PipeContents.BoxIsHull | aes/function.c:129-150 | repeated union yields the smallest rectangle around all |
| MessagePipe.Queue.PutIn | aes/gemqueue.c:42-98 | in the word buffer, for messages of 16 bytes with word 2 zero: copied behind the others, or melted into the first redraw of the same window, which grows to hold both rectangles and is the same otherwise |
| MessagePipe.Queue.TakeOut | aes/gemqueue.c:42-98 | the first message comes out, the others move up |
| MessagePipe.Queue.Aqwrite | aes/gemqueue.c:104-150 | blocks or accepts a message of 16 bytes with word 2 zero, and hands the first one to the first waiting reader, reporting it exactly if there is one |
| MessagePipe.Queue.Aqread | aes/gemqueue.c:104-150 | blocks or delivers the first message and accepts that of a waiting writer |
| MessagePipe.Queue.CancelRead | aes/gemasync.c:324-366 | the reader leaves the list of waiting ones, the rest is as it was |
| MessagePipe.Queue.CancelWrite | aes/gemasync.c:324-366 | so does the writer; its message is not delivered |
| LockState.RunSound | aes/gemflag.c:90-175 | over every run in which only the owner ends updates: sy_tas is the nesting depth of the owner, zero exactly without owner, and waiters exist only while it is owned |
| LockState.Exclusive | aes/newwmlib.c:976-995 | two processes are never inside an update at the same time |
| LockState.HandOver | aes/gemflag.c:149-175 | exactly the last release with waiters hands over, at depth one, to the first of the list, whose event completes once |
| LockState.LastComesFirst | aes/gemflag.c:125-175 | once the owner has ended all its updates, however deeply nested, the process that asked last has the lock, before all that asked earlier |
| LockState.EndSoundIff | aes/gemflag.c:149-175 | ending an update keeps all that if and only if the lock is free or the caller owns it |
| UpdateLock.SyncBlock.TakFlag | aes/gemflag.c:90-106 | refines the taking of the abstract lock |
| UpdateLock.SyncBlock.Amutex | aes/gemflag.c:125-143 | at once completed or first of the waiting list |
| UpdateLock.SyncBlock.Unsync | aes/gemflag.c:149-175 | refines the release of the abstract lock |
| UpdateLock.SyncBlock.WmUpdate | aes/newwmlib.c:976-995 | one step of the abstract lock |
| ProcessLists.Wake | aes/gemaints.c:38-62 | a sleeping process moves from the sleeping list to those to be made ready |
| ProcessLists.WokenTrans | aes/gemdisp.c:253-318 | waking in steps is waking at once: over any steps, exactly those sleepers woke that had an event come |
| Dispatcher.Scheduler.Forkq | aes/gemdisp.c:61-95 | a full ring drops the fork process, otherwise it is the last in the ring |
| Dispatcher.Scheduler.constructor | aes/geminit.c:374-430 | the first process runs, the ring is empty: the state the runs start from |
| Dispatcher.Scheduler.Pstart | aes/gempd.c:140-171 | the new process comes in front of those to be made ready |
| Dispatcher.Scheduler.DispAct | aes/gemdisp.c:101-115 | the process becomes the last ready one |
| Dispatcher.Scheduler.Signal | aes/gemaints.c:38-62 | the bit is set and the process woken, the first to be made ready then, exactly if it sleeps on it; no process sleeps on a completed event |
| Dispatcher.Scheduler.Forker | aes/gemdisp.c:137-188 | every fork process in the ring runs once, in order, and wakes exactly whom it should |
| Dispatcher.Scheduler.Drain | aes/gemdisp.c:299-309 | all woken processes become ready, behind those that were |
| Dispatcher.Scheduler.Retire | aes/gemdisp.c:253-286 | the running process goes to the end of the ready list, or to sleep exactly if it waits for what has not come |
| Dispatcher.Scheduler.Disp | aes/gemdisp.c:253-318 | every process is on one list; every fork process that was in the ring, or came with a poll and found room, runs, in order, and no other; a process sleeps afterwards exactly if it slept, or was running and waiting, and none of its events has come; the ready ones keep their turn and the one that was running has the next; polling ends as soon as one brings nothing while somebody is ready |
| Dispatcher.EventsIff | aes/gemdisp.c:137-318 | an event has come after disp exactly if it had before, or a fork process completes it that was in the ring or came with a poll and found room |
| Dispatcher.FlagsIff | aes/gemdisp.c:137-188 | the same for fork processes that run one after the other |
| Dispatcher.AcceptedIff | aes/gemdisp.c:61-95 | of the fork processes of a poll exactly those for which the ring has room are accepted |
| Dispatcher.Scheduler.Mwait | aes/gemasync.c:103-115 | no change if an event has already come; otherwise the process sleeps until one does, and fork processes run as in disp |
| TreeShape.TailTells | aes/gemoblib.c:1527-1548 | the tail of what follows a child tells whether that is the parent or a sibling |
| TreeShape.AddedThreaded | aes/gemoblib.c:1129-1151 | the link writes of ob_add append a child |
| TreeShape.RemovedThreaded | aes/gemoblib.c:1163-1198 | the link writes of ob_delete take a child out at any place |
| TreeShape.PutInThreaded | aes/gemoblib.c:1212-1251 | the link writes of ob_order put a child in at any place |
| TreeWalk.VisitOffsets | aes/gemobjop.c:138-198 | every visit has the start offset plus the offsets of the objects above it |
| TreeWalk.NextNotBelow | aes/gemobjop.c:138-198 | what follows an object in the thread is not below it, so its walk is never cut short |
| TreeWalk.NoEnd | aes/gemobjop.c:138-198 | a walk without an end object is not cut short either |
| TreeWalk.FlatWalk | aes/gemobjop.c:138-198 | a flat tree is walked as its root and then its children in order, as the window tree is |
| TreeWalk.GoDown | aes/gemobjop.c:160-198 | going down leaves the object and then the visits due from the first child |
| TreeWalk.GoOn | aes/gemobjop.c:160-198 | going on to a sibling leaves the visits due from there |
| TreeWalk.FoundIsLastHit | aes/gemoblib.c:1029-1116 | the object found is the last visited one that is visible and under the point along with all above it; NIL exactly if there is none |
| TreeOrder.VisitedIff | aes/gemobjop.c:138-198 | a walk visits exactly the objects at most so many levels below the start with none hidden from the start down to the parent |
| TreeOrder.VisitOrder | aes/gemobjop.c:138-198 | objects are visited before those below them, and what is below an earlier child before what is below a later one |
| TreeOrder.PrecedesOnce | aes/gemobjop.c:138-198 | that is an order, so no object is visited twice |
| TreeOrder.WalkIff | aes/gemobjop.c:138-198 | a walk up to an end object visits exactly the objects reached that come before it |
| TreeOrder.FoundIsLast | aes/gemoblib.c:1029-1116 | the object found is reached and hit, and every other one that is comes before it |
| TreeOrder.RootOffsets | aes/gemobjop.c:138-198 | a walk from the root meets every object where ob_offset says it is |
| ObjectTree.Tree.GetPar | aes/gemobjop.c:210-228 | terminates with the parent; NIL for the root |
| ObjectTree.Tree.EveryObj | aes/gemobjop.c:138-198 | an object is visited if and only if it lies at most maxdep levels below the start, none from the start down to its parent is hidden, and it comes before the end object; each one once, in the order of the tree, at the start offset plus those of the objects above it; the end object is behind the start in the thread or met on the way, or for the root any or none |
| ObjectTree.Tree.ObOffset | aes/gemoblib.c:1405-1419 | the sum of the offsets of the object and all above it |
| ObjectTree.Tree.GetPrev | aes/gemoblib.c:1527-1548 | the previous sibling; NIL for the first |
| ObjectTree.Tree.ObFind | aes/gemoblib.c:1029-1116 | the object found is the last one of those that a walk to the same depth visits and that is visible and under the point along with all above it; NIL exactly if there is none |
| ObjectTree.Tree.ObAdd | aes/gemoblib.c:1129-1151 | the child sequence gains the object at its end and the tree stays well formed |
| ObjectTree.Tree.ObDelete | aes/gemoblib.c:1163-1198 | the child sequence loses the object and the tree stays well formed |
| ObjectTree.Tree.ObOrder | aes/gemoblib.c:1212-1251 | with a position among the siblings, the object moves there, the last place being -1, the others keep their order, and the tree stays well formed if and only if it has siblings; with any other position the object is out of the tree, which is well formed without it, when the source leaves the list of children |
| BlockPool.FreeElsewhere | bdos/osmem.c:226-298 | more free descriptors in all than in one block: another block has some |
| BlockPool.TotalSet | bdos/osmem.c:226-298 | taking or freeing one descriptor changes the total by one |
| BlockPool.MovedLists | bdos/osmem.c:304-350 | copying a descriptor and leading its list to the copy keeps both lists |
| BlockPool.MovedListed | bdos/osmem.c:304-350 | after the move both lists hold the same sequence of start, length and owner |
| MemPool.LooseKeptIff | bdos/osmem.c:226-350 | emptying a block keeps the descriptors that are on no list if and only if none of them lies in it |
| MemPool.ChosenOnce | bdos/osmem.c:226-298 | a pool has one chosen block, known before the call |
| MemPool.LooseLost | bdos/osmem.c:226-298 | there is a sound pool with four free descriptors in all whose chosen block holds a descriptor that is on no list |
| MemPool.ListedFreed | bdos/osmem.c:421-455 | once a descriptor that is on one of the lists is freed, no assignment of the descriptors to lists is sound |
| MemPool.MdPool.MdFind | bdos/osmem.c:355-395 | the next free descriptor in another block; none only if there is none |
| MemPool.MdPool.constructor | bdos/osmem.c:34-39 | no block, both lists empty: where ofdadd starts from |
| MemPool.MdPool.Mdlink | bdos/osmem.c:304-350 | moves a descriptor that is on a list; one on no list is not moved |
| MemPool.MdPool.PlaceLeft | bdos/osmem.c:226-298 | with four free descriptors in all, mdfind finds a place for every one left in the block |
| MemPool.MdPool.Compact | bdos/osmem.c:270-298 | every used descriptor leaves the block; both lists keep the same sequence of start, length and owner |
| MemPool.MdPool.GetOsm | bdos/osmem.c:226-298 | with four free descriptors in all: empties the chosen block, the first with at least three free descriptors or else the first with the most; both lists say the same; the descriptors on no list are kept if and only if none lies in that block |
| MemPool.MdPool.MGetOfd | bdos/osmem.c:65-127 | a cleared block for a file: the first unused or wholly free one of the list, else new memory, else with four free descriptors the chosen block, else the spare one; the tags of all other blocks stay, lists say the same |
| MemPool.MdPool.OfdMore | bdos/osmem.c:65-127 | new memory becomes unused blocks of the list, the last one first |
| MemPool.StackedAt | bdos/osmem.c:41-58 | blocks added one after the other stand in front of the list, the last one first |
| MemPool.TotalZero | bdos/osmem.c:65-127 | no free descriptor in all exactly if no block has one |
| MemPool.MdPool.MGetMd | bdos/osmem.c:159-215 | the first free descriptor of the first block that has any, with tags and blocks as they were; if there is none, the last one of a block made a descriptor block for it, which is the last unused one of the list, or new memory, or the spare one; NIL exactly if there is none of them; cleared, and lists say the same |
| MemPool.MdPool.OftDel | bdos/osmem.c:405-415 | the block of a closed file is unused again |
| MemPool.MdPool.XmdFree | bdos/osmem.c:421-455 | exactly a descriptor that is handed out is given back, and lists say the same if and only if it is on neither of them |
| LongDivision.TwoSteps | aes/doprint.c:44-53 | long division in two 16-bit steps is exact |
| LongDivision.Tentative | aes/doprint.c:55-63 | the quotient of the shifted operands fits 16 bits and is the true one or one more |
| LongDivision.Product | aes/doprint.c:65-80 | the product from two partial products is exact, and an overflow is seen |
| LongDivision.Uldiv | aes/doprint.c:33-89 | the exact 32-bit unsigned quotient for every divisor other than zero |
| LongDivision.Ulrem | aes/doprint.c:17-22 | the exact unsigned remainder |
| Numerals.NumeralValue | aes/doprint.c:92-173 | a numeral read back is the number it was made of |
| Numerals.WrittenAt | aes/doprint.c:144-173 | every digit is written as its character, in upper or lower case as asked for |
| Numerals.DigitCount | aes/doprint.c:92-141 | at most 11 octal, 10 decimal or 8 hexadecimal digits |
| Numerals.NoLeadingZero | aes/doprint.c:92-173 | the numeral of a number other than zero does not begin with 0 |
| NumberPrint.HexShift | aes/doprint.c:100-141 | shifting with the sign still yields the hexadecimal digits of the 32-bit number |
| NumberPrint.OctalShift | aes/doprint.c:100-141 | arithmetic shifts yield the octal digits, the eleventh having two bits |
| NumberPrint.Prtld | aes/doprint.c:92-141 | the digits of the magnitude, and a minus sign exactly for negative signed decimals |
| NumberPrint.Prtint | aes/doprint.c:144-173 | sign and numeral, ended by a null character |
| NumberPrint.PrintedValue | aes/doprint.c:144-173 | the printed text, read back, is the number modulo 2 to the 32, or minus sign and magnitude for signed decimals; at most 11 characters |
| Terminal.EditedEnd | bdos/console.c:630-675 | once the line is complete further keys change nothing |
| Terminal.NextKey | bdos/console.c:630-675 | what each editing key does to a line that is not complete |
| Terminal.CellsAre | bdos/console.c:298-339 | a tab is blank up to the next multiple of eight, a control character a caret and a letter |
| Terminal.PlainLine | bdos/console.c:630-675 | typing without editing keys yields what was typed |
| Terminal.ShowsLess | bdos/console.c:570-608 | backspace, blank, backspace takes one cell off the screen |
| LineEditor.Console.Conout | bdos/console.c:256-268 | on a device that knows printable characters, carriage return, line feed and backspace, the tracked column stays that of the cursor if and only if the character is no backspace in the first column |
| LineEditor.Console.Tabout | bdos/console.c:298-312 | a tab becomes one to eight blanks up to the next multiple of eight; every other character goes to the screen as it is |
| LineEditor.Console.Cookdout | bdos/console.c:322-339 | what is shown grows by the cells of the character: tabs expanded, control characters as two |
| LineEditor.Console.Newline | bdos/console.c:552-563 | a new line, blank up to the starting column |
| LineEditor.Console.Backsp | bdos/console.c:570-608 | the last character leaves the buffer and exactly its cells leave the screen |
| LineEditor.Console.Keystroke | bdos/console.c:643-672 | one key keeps column and screen in step with the buffer; ctrl-U and ctrl-R, and no other key, leave the old line above with a number sign behind it |
| LineEditor.Console.Redisplay | bdos/console.c:663-668 | ctrl-R puts a number sign behind the line and shows the accepted buffer again below |
| LineEditor.Console.Cgets | bdos/console.c:630-675 | the buffer is what the keys edit to, never more than maxlen; screen and column show it from the starting column on |

## Left out

Of the code that is modelled:

- Integer widths of coordinates, counts and handles: all are unbounded, except in division, number printing and event masks.
- Failing memory allocation in `newrect` and `chgrlist` (aes/newwrect.c) and in `newwp` (aes/newwmlib.c).
- The links between memory blocks (`mnext`) are a sequence of block numbers; blocks given back are not used again.
- The mask of sides in `brkrect` is a set of sides, the component bits of `w_kind` are booleans, an event mask is a set of
  bit numbers below 16, and `x_flag` is a signed tag.
- Rectangle lists hanging from a window (`fxywh`) are not part of the window database or the stacking order; so deleting an
  open window with a pending list is not described.
- WindowStore.WindowDb.Delete: does not close the window first; closing is `WindowOrder.WindowStack.Close`.
- WindowOrder.WindowStack.Totop: covers the links only; redraw areas, messages, colours and mouse ownership are left out.
- WindowGeometry.WAdjust: covers the three rectangles of the window; the objects inside the border are left out.
- WindowOrder.WindowStack.Tobot: what the source reads and writes through a NIL link is not described; the model stops
  there.
- RectLists.RectPool.GenRList: what the source reads through NULL is not described; the model stops there.
- OrectLists.WindowRects.RedoAll: walks the windows in a given order; that `everyobj` meets them in the order of the flat
  window tree is `TreeWalk.FlatWalk`.
- An empty pool of ORECT nodes is only reported; what the older rectangle code then leaves behind is not described.
- DelayList.DelayQueue.Delay: the interrupt and the forked call of `tchange` are one step; ticks between the two are left
  out, and so is that a count below zero comes round to zero after all the values of 32 bits.
- `gl_bpend`, the `e_pred` link of the semaphore chain, `NOCANCEL`, return values and parameters of events other than timers.
- EventBlocks.EventKernel.Iasync: what the source writes through a NULL block is not described, and a process has a bit left;
  with all sixteen in use the source gives the mask zero, but `ev_block` and `ev_multi` leave none behind.
- EventBlocks.EventKernel.EvMulti: starts when nothing asked for has happened yet, and takes the six tests of its flags as a
  list of requests; the quick checks before and the values returned for each event are left out.
- EventBlocks.EventKernel.Mwait: other processes and interrupts are a list of events that complete meanwhile; scheduling is
  `Dispatcher.Scheduler.Mwait`.
- PipeContents.WriteSound: covers messages of 16 bytes with word 2 zero, as `ap_sendmsg` builds them; `PipeContents.WordTwoIff` says
  what goes wrong otherwise, except for odd and negative values, with which the source reads words off their boundaries or
  walks backwards.
- MessagePipe.Queue.PutIn: covers the same messages.
- MessagePipe.Queue.Aqwrite: covers the same messages; the wait queues of the pipe are sequences.
- Dispatcher.Scheduler.Disp: the keyboard poll and interrupts are a parameter, suspension, critical errors and the recording
  of events are left out, and switching contexts is the change of the first ready process.
- Dispatcher.Scheduler.Forker: a fork process is the list of events it completes.
- ObjectTree.Tree.EveryObj: calls the routine by recording the visit; nesting up to the full MAX_DEPTH is excluded, because
  the arrays of the source are one too short for it; so is an end object that a walk from another object than the root
  neither meets nor has behind it, with which the source leaves the subtree. No caller passes one.
- ObjectTree.Tree.ObFind: is the build without 3D objects (`ob_gclip`).
- ObjectTree.Tree.ObOrder: where the source leaves the list of children the model stops; what it reads and writes there is
  not described.
- MemPool.MdPool.MGetOfd: the memory that `ofdmore` and `fsgetofd` may supply is a parameter.
- A memory descriptor outside the blocks of the pool, such as the one at the system variable `themd`.
- MemPool.MdPool.MdFind: `mp_rover` and the lists of the memory manager beyond `mp_mfl` and `mp_mal` are left out.
- NumberPrint.Prtint: covers bases 8, 10 and 16; the format strings of `__doprint` and `__prtshort` are left out.
- LineEditor.Console.Conout: escape sequences and a raw tab move the cursor of a real terminal and not the tracked column;
  the device of the model ignores them.
- LineEditor.Console.Cgets: the keys are given; ctrl-C, ctrl-S, ctrl-Q and the right margin of the screen are left out. It
  starts with a column that is that of the cursor: after a backspace in the first column it is -1, and ctrl-U and ctrl-R
  then count blanks down from there through the whole range of the integer.

Not modelled at all: VDI calls, drawing, mouse forms, resources, shell and file selector; menus; `winx.c`; the file system
above system blocks; `post_keybd`, `post_button`, `post_mouse` and the keyboard ring, which would only add easy members.
