# Verified models of an instruction-level debugger, a maze solver, a kernel maze device and a job queue

Four programs are modelled, each in the form its source has: methods that change objects and arrays in place, proved
against functions and predicates on values, about which the lemmas speak.

**The debugger (`Words`, `Machine`, `Session`, `Outcomes`, `Table`, `Laws`, `Stopping`, `Debuggers`, `Transparency`,
`Limits`, `SyscallLabels`).** A tracee with variable-length instructions, whose decoder and semantics are arbitrary,
is watched through ptrace: 8-byte little-endian words are peeked and poked, an executed int3 traps one byte further.
The debugger keeps a table of ten breakpoints, the two globals that say which trap it has lifted, and the flag of a
breakpoint set where the tracee stands. `Session` says what a session means: the program on its own code plus a table
of addresses that only decides where to stop. `Outcomes` says what `si` and `cont` do from every state, and exactly
when that is one step, or the run to the first stop, of the program on its own. Every command is proved to follow
these, so is the command loop, and the main theorem is that breakpoints are transparent. `Laws` says what each command
must do, from the states before and after it alone: which breakpoints there are, what is saved, which hits are
reported. `Limits` has concrete sessions that go wrong, and exact conditions for the other commands.

**The maze solver (`Grid`, `Depth`, `MazeData`, `Solver`, `Replay`, `OpenFields`).** A maze is loaded from the numbers
of a file, a recursive search marks its grid and fills a shared table of directions, the grid is restored, the path is
written into the slots through which 1200 calls are made, and the calls are replayed with the library's moves. The
search is sound and complete unless it overruns its table. `Depth` says without the search which paths can be on its
stack, and the table is overrun exactly when one of them is longer than 1200; for every other file the end-to-end
theorem is that a solvable maze is won exactly at the last call of a path that visits no cell twice, and that success
is never reported where the end cannot be reached. What an outcome means is said of every table, compiled or not.

**The kernel maze (`Shuffling`, `Tree`, `Carving`, `Backtracking`, `Perfect`, `Generate`, `Kernel`, `Client`).** A
randomised search carves the grid; every random number is arbitrary. Each passage is dug from the room opened last of
those that still have a closed neighbour, to the first such neighbour in that room's random order, so the start and
the numbers settle the maze. It is a spanning tree of its rooms, so every room can be walked to and unit moves need no
bounds check. A table of three slots holds the mazes of processes whose operations interleave freely. The client's
bounds-checked simulation of a batch of moves agrees with the kernel's, whatever other processes do between the
client's calls.

**The job queue (`JobQueue`).** Two workers and a producer as an interleaving of the steps of a mutex and a condition
variable, spurious wake-ups included. Over every run nothing the user asks for is lost, doubled or reordered, and what
is taken is worked off.

Conventions. Addresses in the tracee are offsets into its mapped code. A stop for a signal other than a trap leaves
the registers as they were, since the debugger never passes signals on. `hits` collects the addresses of the hit
messages. `GetIndex` and `SlotOf` are the kernel's lookup of a process: the first slot with its pid. Random sources
are a sequence of numbers yet to come; a loop that waits for a suitable one returns `None` if the sequence ends first,
and a create that does so does not come back, like one that divides by zero or writes outside its array. The numbers
that carving draws after that are a function of their place, of which any search reads finitely many. A breakpoint is
`placed` while the tracee still stands where it was set.

Where the code and its documentation differ the code is followed. The direction table is filled bytewise, so an unused
entry is 0x04040404 and not the named constant. MAZE_CREATE returns 0 to a process that holds a slot without a maze
even when it gets no maze it can use; a failed create leaves a mark that makes the next close, by any process, do
nothing.

## Model

| member | source | states |
|---|---|---|
| Words.PokeLowByte | hw03/hand_in_version/sdb.c:88-96 | peeking a word, masking in a low byte and poking it back changes one byte of memory and no other |
| Words.SplitShifted | hw03/hand_in_version/sdb.c:88-96 | bytes are stored lowest first: the first is the low byte, and a shift right by eight bits drops it |
| Machine.LengthAgrees | hw03/hand_in_version/sdb.c:93-96 | two memories that agree on an instruction's bytes decode it alike, so a trap elsewhere does not disturb it |
| Machine.ResumeIsFirst | hw03/hand_in_version/sdb.c:736-737 | where the wait ends, both ways: at the first event that is no plain step, every step before it being one |
| Machine.Tracee.Continue | hw03/hand_in_version/sdb.c:736-737 | the tracee runs to its first event that is not a plain step |
| Session.StepUnderOverlay | hw03/hand_in_version/sdb.c:591-632 | a single step on the planted code is a step on the program's own code |
| Session.ResumeUnderOverlay | hw03/hand_in_version/sdb.c:736-750 | continuing on the planted code follows the bare run to its first breakpoint, end or signal, and traps one byte past a breakpoint |
| Session.RunsToUnique | hw03/hand_in_version/sdb.c:736-737 | there is one number of steps after which a run stops |
| Session.PatchBytes | hw03/hand_in_version/sdb.c:918-931 | for any mix of breakpoints in or around the range the program's own code gets exactly the patched bytes |
| Session.PatchKeeps | hw03/hand_in_version/sdb.c:918-955 | patching moves, adds and removes no breakpoint, and the debugger leaves exactly when the range runs off the mapped code |
| Session.PatchLifted | hw03/hand_in_version/sdb.c:934-949 | the lifted trap is planted again exactly when the patch covers it |
| Outcomes.SiExact | hw03/hand_in_version/sdb.c:591-685 | from every state whose current instruction is the program's own, `si` is one step of the program with hits and records right if and only if it is permitted; at a lifted breakpoint it otherwise leaves the program one byte past it |
| Outcomes.SiAtOwnTrap | hw03/hand_in_version/sdb.c:653-681 | at an int3 of the program's own `si` stays where it is, unless an entry lies at the next byte |
| Outcomes.ContExact | hw03/hand_in_version/sdb.c:691-724 | off a lifted breakpoint `cont` resumes where one step of the program leads if and only if that step leaves the address, else one byte past it |
| Outcomes.ContPlacedExact | hw03/hand_in_version/sdb.c:231-257 | from a breakpoint set where the tracee stands, `cont` ends at the program's first stop with hits and records right if and only if that stop is the end of the program |
| Outcomes.ContMeets | hw03/hand_in_version/sdb.c:688-769 | where `cont` is permitted its wait returns and it ends at the program's first stop |
| Table.CleanMemory | hw03/hand_in_version/sdb.c:162-169 | the state invariant fixes the program's own code: the saved byte at each active breakpoint, the tracee's byte elsewhere |
| Table.Plant | hw03/hand_in_version/sdb.c:88-107 | setting a breakpoint plants one byte and saves the word that was there |
| Table.PlantKeeps | hw03/hand_in_version/sdb.c:75-110 | a breakpoint set at any address keeps the state invariant, at the tracee's own address as the placed one |
| Table.Unplant | hw03/hand_in_version/sdb.c:145-156 | under its condition, writing the saved word back removes one breakpoint and nothing else |
| Table.Replant | hw03/hand_in_version/sdb.c:607-616 | re-arming leaves every active breakpoint planted |
| Table.Lift | hw03/hand_in_version/sdb.c:316-329 | the hit branch gives the tracee back exactly the program's byte at the breakpoint |
| Table.HandledSound | hw03/hand_in_version/sdb.c:314-329 | lifting at the stop, or finding no breakpoint there, brings back the state invariant |
| Table.PatchUnder | hw03/hand_in_version/sdb.c:934-949 | patching under a breakpoint updates its record and plants it again |
| Table.PatchSound | hw03/hand_in_version/sdb.c:908-955 | a patch away from the lifted breakpoint keeps the state invariant |
| Laws.BreakAdds | hw03/hand_in_version/sdb.c:75-110 | after `break` there is an active breakpoint at its address and at every other address as before; the debugger ends if and only if there was none and the word is not mapped |
| Laws.DeleteRemoves | hw03/hand_in_version/sdb.c:140-159 | after `delete` no active breakpoint is where its entry had one, and elsewhere all is as before |
| Laws.BreakThenDelete | hw03/hand_in_version/sdb.c:75-159 | a breakpoint just set can be deleted, and then the tracee's code is byte for byte what it was |
| Laws.PatchSaves | hw03/hand_in_version/sdb.c:934-949 | a breakpoint patched over has saved the byte patched in and the seven that lay behind it before the patch; no other saved word changes |
| Laws.HitsAreBreakpoints | hw03/hand_in_version/sdb.c:314-345 | a permitted command reports a hit if and only if it runs the program to an active breakpoint, and ends the debugger if and only if the program has ended |
| Laws.SiReports | hw03/hand_in_version/sdb.c:591-685 | from every state `si` reports a hit exactly where it stops at a breakpoint; off a breakpoint set in place, exactly at the next entry |
| Laws.ContPlacedStops | hw03/hand_in_version/sdb.c:231-257 | `cont` from a breakpoint set in place ends at the program's first stop elsewhere, one byte short of it if it is a signal, and reports only the next entry |
| Stopping.StaysLifted | hw03/hand_in_version/sdb.c:231-257 | after a run with a trap left out the records fit the code if and only if the tracee is back where it started |
| Debuggers.Debugger.SetBreakpoint | hw03/hand_in_version/sdb.c:75-110 | `break` at any address: afterwards a breakpoint is active there and every other is as it was; the byte there is a trap, and no other byte changes, unless one was active already; the debugger ends if and only if the word is not mapped and none was |
| Debuggers.Debugger.DeleteBreakpoint | hw03/hand_in_version/sdb.c:140-159 | for every id the saved word goes back whole and the entry becomes inactive; under the exact condition that removes one breakpoint |
| Debuggers.Debugger.HandleBreakpoints | hw03/hand_in_version/sdb.c:162-384 | after a trap, rip is moved back and an active breakpoint there is lifted and reported, or passed over if it was set while the tracee stood there |
| Debuggers.Debugger.PassOver | hw03/hand_in_version/sdb.c:173-257 | passing over such a breakpoint by `si` or `cont`: where the program ends, which hit is reported, and exactly when the invariant survives |
| Debuggers.Debugger.AfterStep | hw03/hand_in_version/sdb.c:653-681 | a breakpoint reached by stepping is a hit although it has not trapped; any entry at rip stops the move back by one |
| Debuggers.Debugger.StepOff | hw03/hand_in_version/sdb.c:594-631 | leaving a lifted breakpoint is one step on the code as it is, and a second one onto the trap if the tracee has not moved |
| Debuggers.Debugger.CommandSi | hw03/hand_in_version/sdb.c:591-685 | with no condition on the program, `si` takes the session to `SiResult` and keeps the invariant exactly when `SiKeeps` says so |
| Debuggers.Debugger.RunToStop | hw03/hand_in_version/sdb.c:736-751 | the wait after PTRACE_CONT ends where the run on the planted code ends, one byte back after a trap |
| Debuggers.Debugger.CommandCont | hw03/hand_in_version/sdb.c:688-769 | whenever its wait returns, `cont` takes the session to `ContResult` and keeps the invariant exactly when `ContKeeps` says so |
| Debuggers.Debugger.PatchMemory | hw03/hand_in_version/sdb.c:908-955 | for every address, value, length up to eight and placement of breakpoints, the code and records are those of a bytewise patch, and the invariant is kept away from the lifted breakpoint |
| Transparency.CommandLoop | hw03/hand_in_version/sdb.c:985-1056 | for every permitted sequence of commands the debugger keeps its invariant and follows the session |
| Transparency.BreakpointsAreTransparent | hw03/hand_in_version/sdb.c:591-769 | every permitted sequence of commands takes program and code where the same session without breakpoints does, each `cont` being the `si`s it amounts to |
| Transparency.TwinRuns | hw03/hand_in_version/sdb.c:985-1056 | two debuggers, one given the commands and one without breakpoints given the plain ones, end with equal processes and equal code |
| Transparency.RunAsSteps | hw03/hand_in_version/sdb.c:688-769 | a `cont` of n steps is n times `si` in a session without breakpoints |
| Transparency.ContStopsFirst | hw03/hand_in_version/sdb.c:688-769 | where `cont` stops is the first stop of the bare run, both ways |
| Limits.DeleteExact | hw03/hand_in_version/sdb.c:145-156 | deleting removes one trap and nothing else if and only if the saved word still matches memory behind the breakpoint |
| Limits.DeleteUndoesPatch | hw03/hand_in_version/sdb.c:149-151 | a concrete session in which deleting a breakpoint reverts a patch behind it |
| Limits.DeleteLifted | hw03/hand_in_version/sdb.c:607-616 | after the lifted breakpoint is deleted, re-arming leaves the right code if and only if the byte is a trap anyway and the bytes behind it still match the saved word |
| Limits.DeleteHere | hw03/hand_in_version/sdb.c:149-155 | a concrete session in which deleting the breakpoint the tracee stands on leaves a stray trap after re-arming |
| Limits.PatchOverLifted | hw03/hand_in_version/sdb.c:934-949 | records and memory agree after a patch if and only if it misses the lifted byte or writes a trap there |
| Limits.PatchHere | hw03/hand_in_version/sdb.c:934-949 | a concrete session in which patching over the breakpoint the tracee stands on plants its trap |
| Limits.ContLosesSelfJump | hw03/hand_in_version/sdb.c:721-737 | a concrete endless program that `cont` ends, because its breakpoint is on a jump to itself |
| Limits.SiLosesFault | hw03/hand_in_version/sdb.c:625-681 | a concrete session in which `si` leaves a faulting program one byte past it, because of a deleted entry there |
| Limits.ContMissesHit | hw03/hand_in_version/sdb.c:231-257 | a concrete session in which `cont` from a breakpoint set where the tracee stands reports no hit at the breakpoint it stops at |
| Limits.ContReportsNext | hw03/hand_in_version/sdb.c:231-257 | a concrete session, the same with the two breakpoints set in the other order, in which the hit is reported and the trap at the start is lost |
| SyscallLabels.SyscallStops.Judge | hw03/hand_in_version/sdb.c:859-877 | the label of one stop and the state for the next |
| SyscallLabels.SyscallStops.Trace | hw03/hand_in_version/sdb.c:839-877 | the labels printed over a run |
| SyscallLabels.LabelsRight | hw03/hand_in_version/sdb.c:859-877 | all labels of a run are right if and only if no call repeats the number of the call before it whose exit was skipped |
| SyscallLabels.RepeatedCallMislabelled | hw03/hand_in_version/sdb.c:862-875 | a concrete run whose second call is labelled the wrong way round at both stops |
| Grid.LeadsIsSimple | lab03/hand_in_version/libsolver.c:150-175 | the recorded path visits no cell twice and meets the end only at its end |
| Grid.LeadsIsShort | lab03/hand_in_version/libsolver.c:150-175 | the path is no longer than there are road cells to enter |
| Grid.FewRoadsShortWalks | lab03/hand_in_version/libsolver.c:31-31 | with at most 1200 other roads no walk without repetition is longer than the table |
| Grid.ClosedHoldsWalks | lab03/hand_in_version/libsolver.c:158-174 | no walk leaves a set of cells that has all its road neighbours in it |
| Depth.NoLongerIsShallow | lab03/hand_in_version/libsolver.c:31-31 | where no walk without repetition is longer than a bound, no search is deeper |
| Depth.SameStack | lab03/hand_in_version/libsolver.c:158-174 | what earlier failed searches have marked lies apart and makes no difference to how deep a later one goes |
| Depth.StackGrows | lab03/hand_in_version/libsolver.c:164-172 | a stack of the search from a neighbour, with the move to it below, is a stack of the search from the cell |
| Depth.ExploreContinues | lab03/hand_in_version/libsolver.c:164-172 | after a direction searched in vain, what it took is reachable from it and no stack that starts with it is too long |
| MazeData.Shift20IsNotMark | lab03/hand_in_version/libsolver.c:115-115 | a loaded value k<<20 in 32 bits is never the mark 2 |
| MazeData.Shift20IsCongruent | lab03/hand_in_version/libsolver.c:115-115 | it is the number in the 32-bit range congruent to k * 2^20 modulo 2^32 |
| MazeData.Shift20IsRoad | lab03/hand_in_version/libsolver.c:115-115 | it is 0, a road, if and only if k is a multiple of 4096 |
| MazeData.CompleteIs | lab03/hand_in_version/libsolver.c:101-118 | a file is complete if and only if it has six numbers and one for each cell |
| MazeData.FileRoadsAre | lab03/hand_in_version/libsolver.c:109-147 | the roads the search may enter are the cells off row and column 0 whose numbers are multiples of 4096 |
| MazeData.Maze.IsValid | lab03/hand_in_version/libsolver.c:144-147 | true exactly of the roads not marked yet, all inside the array |
| MazeData.LoadBlocks | lab03/hand_in_version/libsolver.c:101-119 | an incomplete file gives no maze; a complete one gives a maze whose cell (x, y) is a road if and only if its number in the file is a multiple of 4096 |
| MazeData.Restore | lab03/hand_in_version/libsolver.c:126-133 | exactly the marked cells become roads again |
| Solver.Solver.Dfs | lab03/hand_in_version/libsolver.c:150-175 | marks only roads and its start, never writes entries below its depth or further on than there are roads left, records a simple path on success and leaves a dead end on failure; it overruns the table exactly when a path that can be on its stack is longer than the table |
| Solver.NotFoundIsNot | lab03/hand_in_version/libsolver.c:144-175 | completeness: after a failed search every reachable cell is marked and the end is not reachable |
| Solver.FoundIsReachable | lab03/hand_in_version/libsolver.c:150-175 | soundness: a recorded path is a walk over valid cells, empty only at the end itself |
| Solver.Solver.CheckPath | lab03/hand_in_version/libsolver.c:193-226 | slots 1 to the depth get the recorded moves, or nothing for an entry that is no direction; with no path no slot changes |
| Solver.Solver.Solve | lab03/hand_in_version/libsolver.c:122-133 | the table is overrun if and only if the search is deeper than 1200; else a path is found if and only if the end can be reached, and the grid is restored |
| Solver.Solver.MazeLoad | lab03/hand_in_version/libsolver.c:86-141 | load, search, restore and compile, whatever an earlier load has left, with the exact condition for the overrun; entries the search cannot have reached are 0x04040404 |
| Solver.RestoredExactly | lab03/hand_in_version/libsolver.c:122-133 | restoration gives back exactly the loaded grid if and only if the start was a road or is the end |
| Replay.MoveDir | lab03/hand_in_version/libmaze_dummy.c:73-86 | one move: to a road neighbour or nowhere, with success exactly on arriving at the end |
| Replay.PathCompiled | lab03/hand_in_version/libsolver.c:201-224 | what is in the slots is a winning walk over the restored maze |
| Replay.MakeCalls | lab03/hand_in_version/maze.c:14-17 | for every table, compiled or not: each call stays or goes to a clear neighbour in the slot's direction or a random one, success is the first arrival at the end, exhaustion is 1200 calls without one, a crash is a call to no move or off the array; on a compiled table every call moves along the path and the program ends exactly at its last call |
| Replay.TrailReaches | lab03/hand_in_version/libmaze_dummy.c:73-86 | a trail that stays or goes to clear neighbours only visits cells that can be reached over clear ones |
| Replay.Program | lab03/hand_in_version/maze.c:7-19 | the overrun if and only if the file is one of `Overruns`; else the calls move over the cells that are clear by the file's numbers, success is reported only if the end can be reached over them, and, whenever it can be reached over roads, at the last call of a walk over roads that repeats no cell |
| OpenFields.Snake | lab03/hand_in_version/libsolver.c:164-172 | on a field of roads the search goes up and down the columns |
| OpenFields.FieldOverruns | lab03/hand_in_version/libsolver.c:169-169 | a concrete file of 101 by 101 roads overruns the table |
| OpenFields.FieldNextDoor | lab03/hand_in_version/libsolver.c:150-175 | a concrete file of 40 by 40 roads does not, although walks longer than the table exist |
| Tree.RouteUnique | lab02/hand_in_version/maze.c:169-181 | between two rooms of a tree grown room by room there is at most one route |
| Tree.RouteExists | lab02/hand_in_version/maze.c:169-181 | and there is one |
| Tree.OpenedCount | lab02/hand_in_version/maze.c:176-179 | one room more is open than passages have been dug |
| Shuffling.Shuffle | lab02/hand_in_version/maze.c:161-167 | the loop of draws and swaps computes `Shuffled` |
| Shuffling.ShuffledKeeps | lab02/hand_in_version/maze.c:161-167 | which loses and repeats nothing, whatever the random numbers |
| Shuffling.PlaceGets | lab02/hand_in_version/maze.c:163-166 | each place gets, and keeps, the entry its random number counts to, modulo how many are left |
| Shuffling.AnyOrder | lab02/hand_in_version/maze.c:161-167 | every order of the directions can come out |
| Carving.MazeInfo.Dig | lab02/hand_in_version/maze.c:176-178 | one wall room and the wall before it are opened, and no other cell |
| Carving.MazeInfo.Carve | lab02/hand_in_version/maze.c:155-182 | the search ends, the grid stays a tree, no room it opened has a closed neighbour, and each passage is dug from the room opened last that still has a closed neighbour, in the first such direction of the order made of that call's random numbers |
| Carving.CellKinds | lab02/hand_in_version/maze.c:171-178 | open cells lie inside the border and never at an even row and column |
| Backtracking.OneMaze | lab02/hand_in_version/maze.c:155-182 | the same start and random numbers give the same passages in the same order |
| Perfect.AllRoomsOpen | lab02/hand_in_version/maze.c:169-181 | rooms with no closed neighbour are all the rooms |
| Perfect.RoomCount | lab02/hand_in_version/maze.c:173-175 | there are floor((rows-1)/2) * floor((cols-1)/2) rooms |
| Perfect.PassageIsEdge | lab02/hand_in_version/maze.c:176-178 | the grid shows an open passage between two rooms exactly where one was dug |
| Perfect.SpanningTree | lab02/hand_in_version/maze.c:155-182 | every room is open and there is exactly one passage fewer than rooms |
| Perfect.RouteBetween | lab02/hand_in_version/maze.c:155-182 | any two rooms are joined by a route visible in the grid |
| Perfect.RouteOnly | lab02/hand_in_version/maze.c:155-182 | by one route only |
| Perfect.WallsRemain | lab02/hand_in_version/maze.c:210-217 | border cells and cells at an even row and column stay walls |
| Generate.GetOddNumber | lab02/hand_in_version/maze.c:184-191 | the loop computes `OddFrom` |
| Generate.DrawnIsCongruent | lab02/hand_in_version/maze.c:188-188 | a draw lies in its range and differs from the minimum by the random number, modulo the width |
| Generate.DrawnWraps | lab02/hand_in_version/maze.c:188-188 | with the bounds the wrong way round the width and the number wrap to 32 bits |
| Generate.OddFromIsFirst | lab02/hand_in_version/maze.c:184-191 | which is the first odd number drawn from the range, or none exactly when every draw is even |
| Generate.ChooseEnds | lab02/hand_in_version/maze.c:201-208 | the loop computes `EndsFrom` |
| Generate.EndsFromIsFirst | lab02/hand_in_version/maze.c:201-208 | which are the rooms of the first round in which they differ, both ways |
| Generate.FourDraws | lab02/hand_in_version/maze.c:204-207 | the four draws of a round are row and column of the start, then of the end |
| Generate.DrawsFold | lab02/hand_in_version/maze.c:188-208 | concretely, with sides of five the numbers 8, 6, 6, 6 start the maze at row 3 and end it at row 1 |
| Generate.EndsPossible | lab02/hand_in_version/maze.c:202-208 | for sides other than two the choice of ends can finish if and only if one side is at least five, so that there are two rooms, or is one |
| Generate.GenerateMaze | lab02/hand_in_version/maze.c:193-237 | from sides of at least three a perfect maze of the asked size, carved by backtracking, with the position at its start, showing `*` at the start, `E` at the end, `.` on other open cells and `#` elsewhere; with a side of one a grid of walls with the position outside it |
| Kernel.StepIn | lab02/hand_in_version/maze.c:319-323 | a move goes to the cell it aims at unless that shows a wall, and then nowhere |
| Kernel.InBounds | lab02/hand_in_version/maze.c:320-320 | the unchecked read of a unit move from an open cell is inside the grid |
| Kernel.UnitsStayInGrid | lab02/hand_in_version/maze.c:145-150 | and so are all the reads of a batch of them |
| Kernel.Device.Move | lab02/hand_in_version/maze.c:311-324 | a MAZE_MOVE to a cell inside the grid changes the caller's position by the move unless that cell shows a wall, and spares every other process |
| Kernel.Device.Write | lab02/hand_in_version/maze.c:127-153 | for any byte length, a batch is refused unless its whole moves are a multiple of eight, else it is the fold of its moves |
| Kernel.Device.Read | lab02/hand_in_version/maze.c:100-125 | the number at row * columns + column is 1 exactly where the grid shows a wall |
| Kernel.Device.Reset | lab02/hand_in_version/maze.c:287-293 | the position is the start again |
| Kernel.Device.Destroy | lab02/hand_in_version/maze.c:294-301 | the maze goes and the slot stays |
| Kernel.Device.GetSize | lab02/hand_in_version/maze.c:302-310 | columns and rows, in that order |
| Kernel.Device.GetPos | lab02/hand_in_version/maze.c:325-334 | the position as (x, y) |
| Kernel.Device.GetStart | lab02/hand_in_version/maze.c:335-344 | the start as (x, y) |
| Kernel.Device.GetEnd | lab02/hand_in_version/maze.c:345-354 | the end as (x, y) |
| Kernel.Device.CreateMaze | lab02/hand_in_version/maze.c:239-249 | the first vacant slot gets a new maze, whatever its process already has, or the call does not come back; the device stays valid if and only if the maze is usable |
| Kernel.OneRow | lab02/hand_in_version/maze.c:260-261 | a concrete create of nine columns and one row comes back with no usable maze |
| Kernel.Device.Create | lab02/hand_in_version/maze.c:256-286 | for all sizes: the error cases, when the call does not come back, when the device stays valid, and that success gives a maze exactly when the process had no slot or the vacant one comes first |
| Kernel.Device.CreateForQ3 | lab02/hand_in_version/maze.c:355-363 | creates without asking and reports success, in the first vacant slot if there is one; the device stays valid as for `Create` |
| Kernel.Device.Close | lab02/hand_in_version/maze.c:91-98 | frees the caller's first slot unless a failed create has left its mark |
| Kernel.IndexOf | lab02/hand_in_version/maze.c:39-58 | the first slot with a pid, or -1 |
| Client.Serve | lab02/hand_in_version/maze.c:251-368 | over every interleaving of requests a process that makes none keeps its slots, mazes and position, and the device stays valid until a create does not come back or comes back with a side of one |
| Client.ServeOne | lab02/hand_in_version/maze.c:251-368 | each request has the effect of its own operation for its caller and brings back its answer, and spares every other process |
| Client.Rebuilt.Rebuild | lab02/mazemod/mazetest.c:197-198 | the layout cut back into rows has walls exactly where the kernel's grid has |
| Client.Rebuilt.Simulate | lab02/mazemod/mazetest.c:210-222 | the bounds-checked simulation ends where the fold of the moves does |
| Client.RandomWalk | lab02/mazemod/mazetest.c:203-234 | the position told, the one reported and the one the moves lead to from the start are the same, for every maze, every batch of unit moves of an accepted length and every interleaving with other processes' requests, unless such a create ends the run |
| Client.OneByOne | lab02/hand_in_version/maze.c:311-324 | unit moves made one call at a time end where a batch of them does |
| Client.WalksStayInside | lab02/hand_in_version/maze.c:145-150 | no walk leaves the open cells inside the border |
| Client.Walkable | lab02/hand_in_version/maze.c:155-182 | from every room, so from the start, unit moves lead to every room, so to the end |
| JobQueue.StepKeeps | lab04/backups/challenge#2.c:99-125 | every step keeps mutual exclusion, each busy worker the holder of its own taken job, and the absence of lost wake-ups |
| JobQueue.FromTheStart | lab04/backups/challenge#2.c:99-125 | so they hold in every reachable state, whatever the interleaving |
| JobQueue.NothingLost | lab04/backups/challenge#2.c:99-125 | over every run the jobs taken, then those on the list, then the one being pushed, are the jobs the user has asked for, in order |
| JobQueue.WorkedOff | lab04/backups/challenge#2.c:107-115 | over every run each worker has finished all the jobs it took but the one it holds |
| JobQueue.JobsHeldApart | lab04/backups/challenge#2.c:105-115 | no taken job is held by two workers |
| JobQueue.StatusIsOwn | lab04/backups/challenge#2.c:31-35 | a step changes a status line only by writing it: line i, by worker i holding the mutex, headed by the job it has taken; no other step touches any |
| JobQueue.StatusOverRun | lab04/backups/challenge#2.c:31-35 | over every run a status line is the last one its worker has written, about a job that worker took, or as before |
| JobQueue.StuckIsDrained | lab04/backups/challenge#2.c:99-125 | when no thread can go on without new input, the list is empty, the mutex is free and both workers wait |
| JobQueue.StuckIsDone | lab04/backups/challenge#2.c:99-125 | then every job the user asked for has been taken, in the order asked, and finished by the worker that took it |
| JobQueue.Drains | lab04/backups/challenge#2.c:99-125 | after any run the threads run out of steps, and when they can go no further every job asked for has been taken in the order asked, the list is empty and both workers wait |

## Left out

- Debuggers.Debugger.SetBreakpoint: an eleventh entry, which the code writes outside the table.
- Debuggers.Debugger.HandleBreakpoints: its branch for the `syscall` command, and calls from states outside the invariant, such as a flag left behind by a `si` that is not permitted.
- Debuggers.Debugger.CommandCont: the wait must return; where the program runs for ever so does the command.
- Debuggers.Debugger.PatchMemory: lengths above eight shift by 64 bits or more, which C leaves undefined.
- Transparency.CommandLoop: only commands permitted in the state they meet, each exactly when the code does what it is for (`Outcomes.SiExact`, `Outcomes.ContExact`, `Outcomes.ContPlacedExact`, `Limits.DeleteExact`, `Limits.DeleteLifted`, `Limits.PatchOverLifted`), and not `syscall`. A negative id of `delete` indexes outside the table.
- Machine.Tracee.Continue: the wait returns only if the process stops, so a bound on its steps is assumed to exist.
- Instructions that read or write the program's own code, patches of data memory, and code mapped beside the traced segment are not modelled.
- SyscallLabels.LabelsRight: only the labels. How the debugger reaches a system-call stop is not modelled, and its re-arming there keeps the resumed breakpoint lifted for the whole run to the stop.
- Process creation and exit messages, ELF reading, disassembly, register printing and command parsing are not modelled.
- Solver.Solver.MazeLoad: the file's width and height must fit the 101 by 101 array and its start must lie in the maze; neither is checked by the code. What happens after the table is overrun is not modelled, since C leaves it undefined.
- Solver.Solver.CheckPath: the 1200 slots are taken as known and distinct; finding them in the ELF file, dlopen, dlsym and mprotect are not modelled.
- Replay.MakeCalls: a call through a missing function or a move off the array ends the model's run as a crash, which in C is undefined.
- Kernel.Device.CreateMaze: what later requests do once a create with a side of one has left a position outside its grid, where moves read cells an earlier maze has left.
- Generate.GenerateMaze: a side of two divides by zero, and ends outside the 101 by 101 array are written outside it; both count as a call that does not come back.
- Kernel.Device.Move: moves to a cell outside the grid; the code reads what an earlier maze has left there, or outside the array.
- Kernel.Device.Write: batches that make such a move, in the same way.
- Generate.CarveBetween: the maze is built in the slot's own grid and not in a static copy assigned afterwards; the copy of cells outside the asked size is not modelled.
- Proc output, device registration, user-copy and allocation failures, and races on the module's static variables are not modelled; each operation is one atomic step.
- JobQueue.StepKeeps: the command loop adds only non-empty words; the code takes an empty word as no job and would wait behind it.
- Networking in the job, and the network result of a status update, are not modelled; a job makes at most four updates.
- The client's rendering of the maze and its check of the number of bytes read are not modelled.
