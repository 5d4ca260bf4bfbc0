# Verified models of the repository's tooling

The repository is an ns-3 tree. Its self-contained logic sits in Python tools and a few C++ classes,
and this project models those in Dafny 4.11 and proves what they promise. Run
`dafny verify --resource-limit 2000000 dfyconfig.toml`.

| files | what they model |
|---|---|
| `Precedence.dfy`, `Topsort.dfy` | the topological sort over a list of (parent, child) pairs, as one list and level by level |
| `Rotation.dfy`, `FindCycles.dfy` | the enumeration of elementary cycles on a stack of paths |
| `WorkerPool.dfy`, `Verdicts.dfy`, `TestRun.dfy` | the parallel test runner: worker threads, two queues, poison pills, an interrupt flag and a collector, and what the jobs come back with |
| `TypeWalk.dfy` | the walk over registered types that prints every configuration path |
| `ShellSyntax.dfy`, `ShellGrammar.dfy` | the mini shell's token reader, and the grammar of what it accepts |
| `ShellScript.dfy`, `ShellWiring.dfy`, `ShellRun.dfy`, `ShellPosix.dfy` | its evaluator: what a pipeline means, what is started and how it is wired, and where it parts from the POSIX shell |
| `PatchText.dfy`, `PatchReading.dfy`, `Whitespace.dfy`, `PatchSet.dfy` | the patch reader and writer, and the rewrite that undoes trailing whitespace changes |
| `Permutations.dfy`, `Binary.dfy`, `Euclid.dfy` | combinatorics, binary strings, Gray code and integer arithmetic |
| `LargeTransfer.dfy` | the chunked TCP writer |
| `SlotGrid.dfy`, `SlotLife.dfy` | the slot allocation table of the MF-TDMA MAC, and a slot's way through it |
| `Timeline.dfy` | window queries by binary search |
| `Options.dfy`, `Sequences.dfy` | the option type and the facts about lists that the others share |

How the models are built:

- Code that changes state is imperative here too. Loops are loops; objects whose methods update
  fields are classes; each such method is proved equal to a function of the old state, or to a
  property stated outright, and the lemmas are about those.
- Python dictionaries and sets have no fixed order in the model: where the source iterates over one,
  the model picks any remaining key, so the results hold for every order.
- A generator is a method that returns everything the generator yields.
- A raised exception is a constructor of the result (`CycleError`, `None`, `Raised`) or `ok == false`.
- The test runner is a transition system. A step is one queue operation, one look at a job's flags,
  one finished test program or one interrupt; any enabled step may come next.
- Processes, sockets and signals are unconstrained inputs: a test program or a command may return any
  integer, a socket may take any part of what it is offered, an interrupt may come at any step. What
  each test program returns is given beside the jobs, as a job is run once at most.
- A function that a program and its contract share is described by further lemmas in terms of the
  input alone: what is started by the nodes of a pipeline, what is recorded by the registry, what is
  accepted by a grammar, what a call does by the states of the slots.

Where the code does not do what it seems to promise, the code is modelled and the exact condition is
proved:

- The rewrite of whitespace changes can alter context lines, and so the source side of a chunk.
  `Whitespace.SourceKeptIff` says exactly when it does not; `Whitespace.ContextLineChanges` is a case
  where it does. It restores one blank, not a run of blanks.
- A chunk with fewer destination than source lines ends the whole rewrite. `Whitespace.ChunkOfSet`
  says exactly which chunks of a patch set are rewritten; in `Whitespace.RemovalStops` a chunk that
  removes one line keeps the rewrite from the next chunk.
- Writing and reading a patch set gives it back exactly when no removed line starts with `-- ` and
  no added line starts with `++ `: `PatchText.RoundTrip`, with the case `PatchText.RemovedLineLost`.
- `get_ranges` answers nothing when both ends of the window fall into gaps
  (`Timeline.RangeBetweenGaps`), too much when one does (`Timeline.RangeOutsideWindow`), and too
  little when ranges touch at an end of the window (`Timeline.TouchingRangeLeftOut`).
  `Timeline.RangesRightIff` says exactly when the answer is right, and `Timeline.ApartExact` does so
  without the search when no two ranges touch.
- `get_events` may answer one event after the window (`Timeline.EventAfterWindow`) and leave out some
  of several events at one time (`Timeline.EventLeftOut`). `Timeline.EventsRightIff` says exactly when
  the answer is right.
- `binary_range` yields no entry for a width of 0, and only then: there is one string of width 0
  (`Binary.BinaryRange`).
- `&&` and `||` nest to the right, while POSIX nests them to the left: a stopped operator ends the
  whole run. `ShellPosix.NestingMatters` says exactly for which command lists the two differ;
  `ShellPosix.FailureIsNotCaught` is a list where they do.
- The slot table lets a timeslot send and receive at once exactly if it is built with
  `USE_RX_TX_SAME_TIMESLOT` and has two frequencies or more: `SlotGrid.MixingIff`. A removal frees allocated
  slots only, exactly if its id is not 0: `SlotGrid.RemovalSafeIff`; with the id 0 it frees a reserved
  slot in `SlotGrid.RemovalOfZero`.

## Model

| member | source | states |
|---|---|---|
| Topsort.Topsort | bindings/python/topsort.py:61-112 | the answer lists, without repetition, exactly the elements that no cycle reaches, every parent before its child and levels never decreasing; the error comes exactly when the pairs have a cycle, and then carries the remaining elements with the number of pairs between them |
| Topsort.BuildTables | bindings/python/topsort.py:77-90 | counts and child lists agree with the pairs, multiplicity included |
| Topsort.KnockDown | bindings/python/topsort.py:100-103 | every listed child loses one per listing, and those that reach zero are collected once each |
| Topsort.ReleaseChildren | bindings/python/topsort.py:97-106 | one turn keeps the tables in step with what is left of the pairs, deletes no key that is needed later, and releases exactly the nodes that become free |
| Topsort.RemoveParent | bindings/python/topsort.py:97-106 | one turn of the loop over the growing answer keeps the sorting invariant |
| Topsort.SplitByCycles | bindings/python/topsort.py:108-112 | once nothing waits, what is listed is exactly what no cycle reaches |
| Topsort.TopsortLevelsCore | bindings/python/topsort.py:174-232 | list k holds exactly the nodes whose longest chain of pairs has length k; the yielded nodes are those no cycle reaches; the error comes exactly on a cycle and carries what is left |
| Topsort.TopsortLevels | bindings/python/topsort.py:114-172 | the same for a pair list; the error reports the same residue as the plain sort |
| Topsort.TakeLevel | bindings/python/topsort.py:205-224 | one level is exactly the nodes that nothing left holds back, and is gone from the tables afterwards |
| Topsort.UnblockedIsLevel | bindings/python/topsort.py:203-224 | the nodes free after k rounds are exactly those at level k |
| Topsort.SortsAgree | bindings/python/topsort.py:93-112 | the list form is the level form laid end to end, up to order inside a level, on cyclic input too |
| Precedence.StuckDownstream | bindings/python/topsort.py:108-111 | a set in which each element has a parent in the set is fed by a cycle |
| Precedence.ListedNotDownstream | bindings/python/topsort.py:95-112 | nothing listed in dependency order is reached by a cycle |
| Precedence.PendingRelease | bindings/python/topsort.py:98-103 | removing a parent lowers a child's count by the number of pairs between them |
| Precedence.LevelFromParents | bindings/python/topsort.py:203-224 | a node sits one level below its deepest parent |
| FindCycles.FindCycles | bindings/python/topsort.py:343-385 | every yielded list is an elementary cycle, no two are rotations of each other, and every elementary cycle is yielded up to rotation, although starts already visited are skipped |
| FindCycles.Explore | bindings/python/topsort.py:351-385 | the search from one start ends, and leaves every path from it closed |
| FindCycles.Expand | bindings/python/topsort.py:362-385 | each child is reported as a cycle or extends the path; the new paths are the extensions by children not on it |
| FindCycles.Report | bindings/python/topsort.py:369-378 | a cycle is kept exactly if no rotation of it is kept yet |
| FindCycles.ExtensionsLighter | bindings/python/topsort.py:351-385 | the extensions of a path weigh less than the path, with weight (d+1)^(n+1-length) |
| FindCycles.CoveredComplete | bindings/python/topsort.py:346-385 | when the stack is empty every cycle that the start reaches has been yielded |
| FindCycles.ClosingPath | bindings/python/topsort.py:367-369 | a reachable cycle is closed by some path without repetition from the start |
| Rotation.IsRotated | bindings/python/rad_util.py:761-775 | true exactly for rotations |
| Rotation.RotationTransitive | bindings/python/rad_util.py:735-775 | being a rotation is transitive, which duplicate removal relies on |
| WorkerPool.EveryRunFinishes | test.py:929-997 | any interleaving, worker count and moment of interrupt: runs are finite with a stated bound, only a finished run cannot step, and a finished run collected every job exactly once with both queues empty and all workers gone |
| WorkerPool.OnePillEach | test.py:936-937 | in every finished run each worker has taken exactly one of the special jobs |
| WorkerPool.StepKeepsInv | test.py:1626-1651 | every step of every thread keeps the conservation invariant |
| WorkerPool.Progress | test.py:1648-1649 | until the main thread is done some step other than an interrupt is possible: no get or join blocks for ever |
| WorkerPool.StepDecreases | test.py:929-997 | every step, an interrupt included, lowers the work left |
| WorkerPool.DoneFinished | test.py:1794-1795 | when all joins have returned nothing is lost, duplicated or left in a queue |
| WorkerPool.CollectorFed | test.py:1648-1649 | while a result is missing some worker can move |
| WorkerPool.WorkerExits | test.py:936-937 | while a worker has not exited there is a pill for it, or it can move |
| Verdicts.CameBack | test.py:938-997 | every job comes back once: broken, skipped exactly if it was to be, or with the return code that its test program gave |
| Verdicts.BrokenByInterrupt | test.py:945-948 | without an interrupt no job comes back broken |
| Verdicts.InterruptBreaks | test.py:945-948 | the jobs that come back broken are exactly those that no worker was running and that had not come through when the interrupt came, whatever the interleaving |
| Verdicts.StatusIdsExact | test.py:1659-1677 | the skipped, passed, failed, valgrind and crashed jobs by their dispatch flags and by the codes 0, 1, 2 and others |
| Verdicts.CountIsSize | test.py:1659-1677 | a counter over the returned jobs is a number of different jobs |
| Verdicts.SuccessExact | test.py:1873-1876 | passed and skipped add up to the total exactly when nothing is broken and every job was skipped or returned 0 |
| TestRun.TestRun.WorkerTurn | test.py:929-997 | one action of a worker on the shared queues is one step of the transition system |
| TestRun.TestRun.RunJobSynchronously | test.py:971-986 | a job that is run gets the return code of its own test program |
| TestRun.TestRun.SigintHook | test.py:556-559 | the handler only raises the flag |
| TestRun.TestRun.MainTurn | test.py:1620-1651 | one action of the main thread is one step of the transition system |
| TestRun.TestRun.Tally | test.py:1650-1677 | one returned job is added to the counter of its status |
| TestRun.TestRun.Run | test.py:1363-1876 | for any scheduling the run ends, and returns 0 exactly when no job came back broken and every job was skipped or its test program returned 0; each of the five counters is the number of unbroken jobs that were skipped, or whose program returned 0, 1, 2 or something else; nothing is broken without an interrupt |
| Verdicts.AllGood | test.py:1873-1876 | passed and skipped add up to the total exactly when every job is good |
| TypeWalk.StaticInformation.DoGather | utils/print-introspected-doxygen.cc:1182-1266 | ends on cyclic type graphs, restores both stacks, and appends one entry per walk from the type that repeats no type and avoids those under way |
| TypeWalk.StaticInformation.Gather | utils/print-introspected-doxygen.cc:1173-1179 | from empty stacks: the output gains an entry exactly for every trail through the registry from the type that repeats no type, with the trail's segments as path |
| TypeWalk.EdgesExact | utils/print-introspected-doxygen.cc:1191-1265 | the ways on from a type are its pointer attributes other than to the general object type, its container attributes, the types that inherit from it, and the types aggregated with it on either side, each with its segment |
| TypeWalk.GatheredExact | utils/print-introspected-doxygen.cc:1182-1266 | the same for any types under way and any path before |
| TypeWalk.AggregatedRecorded | utils/print-introspected-doxygen.cc:1244-1265 | a type aggregated with this one, on either side, is recorded with its name after "/$" |
| TypeWalk.StaticInformation.HasAlreadyBeenProcessed | utils/print-introspected-doxygen.cc:1110-1122 | membership in the stack of types under way |
| TypeWalk.StaticInformation.GetCurrentPath | utils/print-introspected-doxygen.cc:1088-1099 | the segments joined with slashes |
| TypeWalk.StaticInformation.RecordOutput | utils/print-introspected-doxygen.cc:1102-1107 | appends the type with the current path and changes nothing else |
| TypeWalk.StaticInformation.GatherAttributes | utils/print-introspected-doxygen.cc:1191-1230 | pointer and container attributes are followed in order, pointers to the general object type are not |
| TypeWalk.StaticInformation.GatherChildren | utils/print-introspected-doxygen.cc:1231-1243 | registered descendants are followed in registration order |
| TypeWalk.StaticInformation.GatherAggregates | utils/print-introspected-doxygen.cc:1244-1265 | aggregated types are followed, on whichever side of the pair they stand |
| TypeWalk.StaticInformation.Descend | utils/print-introspected-doxygen.cc:1211-1215 | one push and pop pair around the recursion |
| TypeWalk.WalksExact | utils/print-introspected-doxygen.cc:1182-1266 | the walks taken are exactly the simple labelled walks |
| TypeWalk.WalksDistinct | utils/print-introspected-doxygen.cc:1182-1266 | no walk is taken twice |
| ShellSyntax.Pipeline.Parse | waf-tools/shellcmd.py:121-201 | the six-state loop accepts exactly what the reader function accepts and builds that pipeline |
| ShellSyntax.Pipeline.TokenInCommand | waf-tools/shellcmd.py:154-179 | one token after a command name |
| ShellSyntax.Pipeline.CommitBefore | waf-tools/shellcmd.py:164-177 | the current node and the operator are appended and no node is current |
| ShellSyntax.ParsedWellFormed | waf-tools/shellcmd.py:121-201 | an accepted token list yields node (operator node)*, a Chdir last or before && only, and a command writes into a pipe exactly before a pipe operator |
| ShellGrammar.ParsedIff | waf-tools/shellcmd.py:121-201 | a token list is accepted, with a certain pipeline, exactly if a line of the grammar spells it: assignments, a name, words and redirections in any order with each redirection once at most, joined by operators, a sign without its file at the very end at most |
| ShellGrammar.AssignmentIff | waf-tools/shellcmd.py:24-24 | an assignment is a name and a value with an equals sign between them, and perhaps a newline |
| ShellSyntax.RoundTrip | waf-tools/shellcmd.py:121-201 | spelling a well-formed pipeline (environment, words, redirections, operator) and reading it gives the pipeline back, for any order of the environment (`OrderExists`: there is one) |
| ShellRun.Run | waf-tools/shellcmd.py:214-346 | the iterative evaluator returns what the recursive meaning of the script says, and what the nodes of the pipeline describe |
| ShellWiring.RunDescribed | waf-tools/shellcmd.py:219-346 | each started command has its own words, sinks and environment; its input is the process before it exactly if a pipe stands before it, otherwise its file, otherwise inherited; its directory is where the cds before it lead, absolute ones starting afresh, and none without a cd; the run goes on behind 0 and && and behind another code and the or operator, returns the last started command's code where it stops, and raises exactly at a cd without a directory or at the end |
| ShellWiring.DescribedOnce | waf-tools/shellcmd.py:219-346 | that description fits one outcome only |
| ShellWiring.JoinOne | waf-tools/shellcmd.py:229-229 | a cd more: absolute, or below the directory before it with one slash between them |
| ShellRun.ExecPipedCommands | waf-tools/shellcmd.py:203-212 | the status of a segment is its last command's, whatever the others returned; 0 without commands |
| ShellScript.ScriptFaithful | waf-tools/shellcmd.py:214-346 | the script of a pipeline keeps every node of it, in order |
| ShellScript.WellFormedAlternates | waf-tools/shellcmd.py:214-230 | what the parser builds is what the evaluator asserts |
| ShellScript.LaunchesArePrefix | waf-tools/shellcmd.py:299-346 | the commands started are the first ones of the pipeline, in its order |
| ShellScript.EvalChdir | waf-tools/shellcmd.py:226-233 | a cd changes the directory of everything after it, and raises without a directory or a command after it |
| ShellPosix.NestingMatters | waf-tools/shellcmd.py:299-346 | the run and one whose operators nest to the left give the same outcome for all exit codes exactly when no operator that can stop the run is followed by one of the other kind |
| ShellPosix.FailureIsNotCaught | waf-tools/shellcmd.py:322-346 | of three failing commands, the first two joined by an and and the last two by an or, only the first is started, while nesting to the left starts the third too |
| PatchText.RoundTrip | utils/check-style.py:348-403 | writing and parsing gives the patch set back exactly when no text looks like a file header |
| PatchText.RemovedLineLost | utils/check-style.py:348-403 | a chunk that removes the line `-- a` is not given back |
| PatchText.LineRead | utils/check-style.py:204-217 | what a written body line is taken for |
| PatchText.HeaderRead | utils/check-style.py:286-295 | a written chunk header is read as its positions |
| PatchText.HeaderFits | utils/check-style.py:286-295 | the same for the texts of a chunk, read by a reader of all four numbers |
| PatchText.FileHeaderIff | utils/check-style.py:360-361 | exactly which lines name a source or a destination file, and which one |
| PatchText.StartIff | utils/check-style.py:362-362 | exactly which lines start a chunk, and at which positions |
| PatchText.BodyIff | utils/check-style.py:363-365 | exactly which lines are body lines, of which kind and with which text |
| PatchReading.ReadableIff | utils/check-style.py:359-403 | the reader raises exactly if some line is of no kind, a destination file or a chunk comes before any source file, or a body line before any chunk |
| PatchReading.ParsedSays | utils/check-style.py:359-403 | the chunk headers and body lines of the patch set, in order, are those of the input, and so are its source files with their chunks and its pairs of names |
| PatchReading.ParsedIff | utils/check-style.py:359-403 | a patch set is read exactly if no line is out of place and the patch set is the one that says that |
| PatchText.ReadAllTotal | utils/check-style.py:359-403 | the reader makes one line object per body line of the input |
| PatchText.WrittenBodies | utils/check-style.py:348-357 | a written line that looks like a header is not read as a body line |
| PatchSet.ParsePatchset | utils/check-style.py:359-403 | the loop builds new objects that show the patch set the input describes, body lines going to the chunk created last, and raises on exactly the other inputs |
| PatchSet.PatchChunk.AddLine | utils/check-style.py:247-253 | any line is appended, one that stands in a chunk already too |
| PatchSet.PatchChunk.Src | utils/check-style.py:254-263 | the very objects of the source side, in order |
| PatchSet.PatchChunk.Dst | utils/check-style.py:264-273 | the very objects of the destination side, in order |
| PatchSet.PatchChunk.Write | utils/check-style.py:286-295 | the second number of the header is how many of the texts after it start with a minus or a blank, the fourth how many start with a plus or a blank, the others are the positions |
| PatchSet.Patch.Write | utils/check-style.py:348-357 | the two names, then every chunk |
| PatchSet.PatchChunk.RestoreBlanks | utils/check-style.py:410-420 | the in-place rewrite through shared line objects is the staged rewrite of the lines; it fails exactly when the source side is longer |
| PatchSet.Patch.RestoreChunks | utils/check-style.py:409-420 | chunks are rewritten up to and with the first that fails, and share no line |
| PatchSet.RestorePatches | utils/check-style.py:408-421 | patches are rewritten up to and with the first that fails |
| PatchSet.RemoveTrailingWhitespaceChanges | utils/check-style.py:405-421 | parsing and rewriting together |
| Whitespace.TextsGrow | utils/check-style.py:411-418 | a line keeps its kind and place, its text is as before or one blank longer, and a line of the source side only is as before |
| Whitespace.LostBlankIff | utils/check-style.py:416-417 | a line is restored exactly if the source line is it with one blank or tab more |
| Whitespace.TargetExact | utils/check-style.py:411-418 | every destination line that faces a source line becomes that line if it is one blank longer by then, and stays otherwise |
| Whitespace.OthersExact | utils/check-style.py:411-418 | all other lines stay |
| Whitespace.RewrittenPatchesGrown | utils/check-style.py:405-421 | the same for a whole patch set: names, positions, counts and order stay |
| Whitespace.HeaderKept | utils/check-style.py:286-295 | a rewritten chunk has the header it had before |
| Whitespace.SourceKeptIff | utils/check-style.py:411-418 | the source side stays exactly when no context line lacks the last blank of the source line it faces |
| Whitespace.AlignedKeepsSource | utils/check-style.py:411-418 | with every context line at the same index on both sides the source side stays |
| Whitespace.KeptTargets | utils/check-style.py:411-418 | then a destination line changes exactly if it lacks one last blank, and becomes the source line it faces |
| Whitespace.ContextLineChanges | utils/check-style.py:411-418 | a chunk whose context line changes |
| Whitespace.RewriteTwice | utils/check-style.py:405-421 | after a rewrite that kept the source side a second one changes nothing |
| Whitespace.ChunksReachedExact | utils/check-style.py:409-420 | the rewrite comes to a chunk of a patch exactly when every chunk before it there let it through |
| Whitespace.PatchesReachedExact | utils/check-style.py:408-420 | the rewrite comes to a patch exactly when every patch before it let it through |
| Whitespace.ChunkOfSet | utils/check-style.py:405-421 | a chunk of a patch set is rewritten exactly when all chunks before it, in its own patch and in earlier ones, have no more source than destination lines; otherwise it is as before |
| Whitespace.RemovalStops | utils/check-style.py:411-420 | a chunk that only removes a line keeps the rewrite from the chunk after it |
| Permutations.Permutations | bindings/python/rad_util.py:293-326 | the listed rearrangements, n! of them |
| Permutations.ListedExact | bindings/python/rad_util.py:310-326 | a list is returned exactly if it is a rearrangement of the input |
| Permutations.ListedCount | bindings/python/rad_util.py:310-326 | n! lists of length n |
| Permutations.ListedDistinct | bindings/python/rad_util.py:310-326 | of different items all returned lists are different |
| Binary.Int2BinSpells | bindings/python/rad_util.py:91-105 | for any width, 0 and negative ones too: fails exactly for numbers that are negative or do not fit into the digits kept; otherwise binary digits that spell the number |
| Binary.Int2BinExact | bindings/python/rad_util.py:91-105 | for a width of 1 or more: fails exactly for numbers that are negative or need more digits; otherwise that many digits |
| Binary.Inverses | bindings/python/rad_util.py:91-130 | int2bin and bin2int undo each other |
| Binary.BinaryRange | bindings/python/rad_util.py:632-660 | 2^bits entries for bits of 1 or more, entry k what int2bin makes of k; none for 0 |
| Binary.Increment | bindings/python/rad_util.py:649-659 | the odometer adds one, the last toggle up exactly on overflow |
| Binary.GrayNeighbours | bindings/python/rad_util.py:612-615 | the codes of i and i+1 differ in exactly one bit, the lowest clear bit of i |
| Binary.GrayBijection | bindings/python/rad_util.py:612-615 | for every n the code maps the numbers below 2^n one to one onto themselves |
| Euclid.Gcf | bindings/python/rad_util.py:252-258 | ends for all signs and returns the greatest common divisor, 0 for 0 and 0, an integer combination of the two |
| Euclid.Lcm | bindings/python/rad_util.py:285-290 | every common multiple is a multiple of the result, and result times divisor is the product |
| Euclid.ReduceFraction | bindings/python/rad_util.py:345-348 | a coprime pair with equal cross products and the signs kept; fails exactly on (0, 0) |
| LargeTransfer.Sender.WriteOnce | examples/tcp/tcp-large-transfer.cc:202-213 | what is offered comes next in the stream and is as much as the end of the buffer, the end of the stream and the space allow; what the socket takes is added |
| LargeTransfer.Sender.WriteUntilBufferFull | examples/tcp/tcp-large-transfer.cc:198-216 | the socket is asked and offered exactly such rounds, each after a space above 0, none after an error; the callback ends blocked exactly if the last offer failed, and closes the socket exactly at the end of the stream or when the last answer was a space of 0; it ends within 2000000 sends and those that took nothing |
| LargeTransfer.Sender.Run | examples/tcp/tcp-large-transfer.cc:198-216 | over any sequence of callbacks the accepted bytes are a prefix of the stream a to z without gap or repeat, and every callback asks the socket something until the stream is complete |
| Timeline.TimelineDataRange.Search | utils/grid.py:105-122 | the index of a range that holds the key, or -1 exactly when none does |
| Timeline.TimelineDataRange.GetRangesBounds | utils/grid.py:153-169 | the bounds are those the lemmas below are about |
| Timeline.TimelineDataRange.GetRanges | utils/grid.py:136-152 | the answer is the slice between the same bounds, for any window |
| Timeline.IndexExact | utils/grid.py:105-122 | binary search over ranges that may touch finds a range with the key if there is one |
| Timeline.BoundsExact | utils/grid.py:153-169 | an end of the window that falls into a range limits the answer, one that falls into a gap does not; with both in gaps nothing is answered |
| Timeline.RangesRightIff | utils/grid.py:136-169 | the answer is the ranges that meet the window exactly when no range next to the bounds meets it, none answered lies on the far side of an end in a gap, and none lies between two gaps |
| Timeline.ApartExact | utils/grid.py:136-169 | when no two ranges touch, which ranges are answered, and exactly when they are those that meet the window |
| Timeline.RangeBetweenGaps | utils/grid.py:145-146 | a range between two gaps is not answered |
| Timeline.RangeOutsideWindow | utils/grid.py:147-148 | a range before the window is answered |
| Timeline.TouchingRangeLeftOut | utils/grid.py:151-152 | of two ranges that touch at the window only one is answered |
| Timeline.TimelineEvent.Search | utils/grid.py:201-218 | the index of an event at the key, or the place where one would be |
| Timeline.TimelineEvent.GetEventsBounds | utils/grid.py:236-245 | the bounds are those the lemmas below are about |
| Timeline.TimelineEvent.GetEvents | utils/grid.py:226-235 | the answer is the slice between the same bounds, cut at the end of the list |
| Timeline.EventsBounded | utils/grid.py:236-245 | every event strictly inside the window is answered, none before it, and at most one after it |
| Timeline.EventsRightIff | utils/grid.py:226-245 | the answer is the events of the window exactly when no event at its start comes before the bounds and the last one answered is the last that comes by its end |
| Timeline.EventsExact | utils/grid.py:226-235 | when no two events come at one time: the events of the window in order, followed by the first event after it unless an event falls on the end or none comes later |
| Timeline.EventAfterWindow | utils/grid.py:226-235 | an event after the window is answered |
| Timeline.EventLeftOut | utils/grid.py:226-235 | of two events at one time only one is answered |
| SlotGrid.CallsKeep | src/darpa/model/MFTDMASlotGrid.cc:170-341 | over any sequence of calls no timeslot receives twice or sends to two targets, without the option none both sends and receives, and removals are pending on allocated slots only |
| SlotGrid.CallKeeps | src/darpa/model/MFTDMASlotGrid.cc:170-341 | each single call keeps that |
| SlotGrid.MixingIff | src/darpa/model/MFTDMASlotGrid.cc:182-214 | some sequence of calls makes a timeslot send and receive exactly in the build with USE_RX_TX_SAME_TIMESLOT, with a timeslot and two frequencies |
| SlotGrid.RemovalSafeIff | src/darpa/model/MFTDMASlotGrid.cc:330-341 | removals with an id free allocated slots only, on every table that keeps the rules, exactly if the id is not 0 |
| SlotGrid.RemovalOfZero | src/darpa/model/MFTDMASlotGrid.cc:330-341 | a removal with the id 0 frees a reserved slot |
| SlotGrid.MFTDMASlotGrid.IsTimeslotAvailableRX | src/darpa/model/MFTDMASlotGrid.cc:101-118 | true exactly when every slot of the timeslot leaves room for receiving |
| SlotGrid.MFTDMASlotGrid.IsSetPendingAllowed | src/darpa/model/MFTDMASlotGrid.cc:182-214 | true exactly for the proposals that the table admits, in both builds |
| SlotGrid.MFTDMASlotGrid.SetSlotPending | src/darpa/model/MFTDMASlotGrid.cc:216-232 | an admitted proposal fills the slot, any other changes nothing |
| SlotGrid.MFTDMASlotGrid.SetSlotAllocated | src/darpa/model/MFTDMASlotGrid.cc:234-248 | only a proposal of the same kind and target becomes an allocation |
| SlotGrid.MFTDMASlotGrid.SetSlotReserved | src/darpa/model/MFTDMASlotGrid.cc:250-265 | the slot is reserved in any case, and the answer says whether its timeslot was free |
| SlotGrid.MFTDMASlotGrid.SetPendingRemoval | src/darpa/model/MFTDMASlotGrid.cc:267-279 | marks an allocated slot that is not marked |
| SlotGrid.MFTDMASlotGrid.UpdateSlotUsage | src/darpa/model/MFTDMASlotGrid.cc:281-293 | renews the time of use of an allocated slot |
| SlotGrid.MFTDMASlotGrid.AbortPendingRemoval | src/darpa/model/MFTDMASlotGrid.cc:295-305 | the first slot with the id, by timeslot and then by frequency, loses its mark |
| SlotGrid.MFTDMASlotGrid.ExecutePendingRemoval | src/darpa/model/MFTDMASlotGrid.cc:330-341 | the first slot with the id is freed and answered; 255 and 255 exactly if there is none |
| SlotGrid.MFTDMASlotGrid.AbortRXProposal | src/darpa/model/MFTDMASlotGrid.cc:307-317 | the first proposal to receive from the target is freed |
| SlotGrid.MFTDMASlotGrid.AbortTXProposals | src/darpa/model/MFTDMASlotGrid.cc:319-328 | every proposal to send to the target is freed and nothing else changes |
| SlotGrid.MFTDMASlotGrid.FreeSlot | src/darpa/model/MFTDMASlotGrid.cc:170-180 | the slot becomes free, nothing else changes |
| SlotLife.AdmittedOwnTimeslot | src/darpa/model/MFTDMASlotGrid.h:63-72 | without the option a proposal is admitted exactly if the timeslot is free, or for sending if its slots are free or proposed for sending to the same station |
| SlotLife.AdmittedSameTimeslot | src/darpa/model/MFTDMASlotGrid.cc:182-214 | exactly what is admitted with the option |
| SlotLife.Proposed | src/darpa/model/MFTDMASlotGrid.cc:216-232 | an admitted proposal makes its slot that proposal and touches no other |
| SlotLife.Taken | src/darpa/model/MFTDMASlotGrid.cc:234-248 | the station of a proposal gets the slot in the proposed direction, stamped with the time; any other allocation changes nothing |
| SlotLife.Marked | src/darpa/model/MFTDMASlotGrid.cc:267-279 | a removal is noted on an unmarked RX or TX slot and nowhere else |
| SlotLife.Renewed | src/darpa/model/MFTDMASlotGrid.cc:281-293 | the time of use of an RX or TX slot is set, and nothing else |
| SlotLife.ReservedOrReleased | src/darpa/model/MFTDMASlotGrid.cc:250-265 | reserving and freeing take any slot as it is |
| SlotLife.Aborted | src/darpa/model/MFTDMASlotGrid.cc:295-305 | the first slot with the removal, and only that, loses its mark |
| SlotLife.Executed | src/darpa/model/MFTDMASlotGrid.cc:330-341 | the first slot with the removal, and only that, becomes free |
| SlotLife.ReceivingAborted | src/darpa/model/MFTDMASlotGrid.cc:307-317 | the first slot proposed for receiving from the station, and only that, becomes free |
| SlotLife.SendingAborted | src/darpa/model/MFTDMASlotGrid.cc:319-328 | every slot proposed for sending to the station becomes free and every other one stays |
| SlotLife.FullCircle | src/darpa/model/MFTDMASlotGrid.cc:216-341 | proposing, allocating, marking and removing a free slot gives the table back as it was |
| SlotLife.SlotsAccounted | src/darpa/model/MFTDMASlotGrid.cc:216-265 | after any sequence of calls a slot in use for a station was proposed for it and later allocated to it in the same direction, and a proposed or reserved slot was asked for |

## Left out

- LargeTransfer.Sender.WriteUntilBufferFull: watches a given number of sends, because the source's loop has no bound while the socket keeps accepting nothing; how many sends it needs beside those is proved, and the rest holds for every number.
- LargeTransfer.Sender.Run: the simulator, the addresses and the traces are not part of this model.
- TestRun.TestRun.RunJobSynchronously: processes, output and timing are left out; a test program always ends with a return code.
- TestRun.TestRun.Run: a Job is a value and not an object shared by the queues; its names, output, timing and the reports written from them are left out.
- TypeWalk.StaticInformation.DoGather: a type's ancestors are given as a set; how TypeId keeps its parent links, and the sorting of a copied list in `Gather`, which has no effect, are left out.
- ShellRun.Run: opening a redirection file always succeeds, processes are known by their launch order, environment variables are the ones set on top of the inherited ones, and `verbose` is off.
- ShellSyntax.Pipeline.Parse: takes the token list; `shlex` is left out. Nodes are values.
- ShellSyntax.RoundTrip: the canonical spelling only, in the order environment, words, redirections; `ShellGrammar.ParsedIff` is about all spellings. The abbreviated display form of the pipeline is left out.
- PatchText.RoundTrip: texts and names hold no line end, as single lines do.
- PatchSet.PatchChunk.Write: a line object is always given a kind when it is made, so writing one that never was is left out.
- Binary.GrayNeighbours: negative numbers, on which Python's `^` works on unbounded two's complement, are left out.
- Binary.Inverses: `bin2int` on strings other than binary digits, which Python's `int` may accept with spaces or a sign, is left out.
- Euclid.Gcf: float arguments and the epsilon they need are left out.
- Permutations.Permutations: the items are values, so lists that share items are not told apart.
- Rotation.IsRotated: an empty second sequence, which has no head item to look for, is left out.
- Timeline.TimelineEvent.GetEvents: times are integers.
- SlotGrid.MFTDMASlotGrid.SetSlotAllocated: the clock is a parameter, and the answers to calls that only look at one slot (`getSlotInfo`, `isSlotFree` and the like), `getIdleSlots` with its float multiplier, and the log are left out.
- The rest of the MAC under `src/darpa` (its packet queues, headers, slot selection and the protocol between stations that calls the slot table) is not part of this model: it runs on the simulator's events and sockets.
- The simulation scripts and the drawing code of `utils/grid.py` set up library objects that are not part of this model.
- The remaining helpers of `rad_util.py` on floats (`quantile`, `trim`, `nice_units`, `float_range`): rounding would be all there is to prove.
- The style check around the patch code, which runs an external indenter and `patch`.
