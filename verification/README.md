# A model of the infrastructure library

The library is a set of C modules that share one intrusive list header: a red-black tree with parent pointers, a
hashed timer wheel, a configuration printer, scanner and parser, a bucket hash with an allocation tracker on top of it,
an I/O event driver, circular lists and a ring buffer.  This project models them in Dafny and proves what they are for.
Code that changes things in place is modelled by classes, arrays and loops; each such method is proved against a
specification over values, and the properties are proved about the specification.

| files | what they hold |
|---|---|
| `Sequences.dfy` | options, and facts about sequences |
| `RbTree.dfy`, `RbInsert.dfy`, `RbErase.dfy`, `RbHeight.dfy` | trees as values, a position as a subtree with its path to the root, one round of each fix-up, and what the rounds keep |
| `RbLinks.dfy`, `RbEraseLinks.dfy`, `RbRoot.dfy` | the pointers: when a heap holds a tree, what the writes of each operation do to it, and the operations themselves |
| `RbAugment.dfy`, `RbAugmented.dfy` | which augmented values rotations and relinking put out of date, and the walk that repairs them |
| `RbIteration.dfy`, `RbMap.dfy` | iteration in order, and the ordered map of the demo program |
| `TimerSpec.dfy`, `TimerHistory.dfy`, `TimerClock.dfy`, `TimerRestart.dfy`, `TimerWheel.dfy` | a plain collection of timers with deadlines, its histories, real time, timers started by callbacks, and the wheel that refines the collection |
| `CfgScanner.dfy`, `CfgPatterns.dfy`, `CfgNumbers.dfy` | the scanner's rules, their patterns and the longest match, and numbers |
| `CfgText.dfy`, `CfgLayout.dfy`, `CfgGrammar.dfy`, `CfgLexemes.dfy`, `CfgRoundTrip.dfy` | the text that is written and its layout, the grammar and its productions, and their round trip |
| `CfgLoader.dfy`, `CfgUtil.dfy` | the configuration in memory, and the update of a file as a transaction |
| `IoEventSpec.dfy`, `IoEventDriver.dfy`, `IoEventOrder.dfy` | a pass over the ready descriptors, the two lists that carry it out, and the order of registration |
| `Hash.dfy`, `MemTracker.dfy` | the buckets as a finite map, and the balance of the live blocks |
| `List.dfy`, `CircBuffer.dfy` | pointer rings as sequences, and the wrapped array as a queue |

Callbacks of timers and of the event driver are arbitrary finite scripts of calls back into the module, one for each
call that is made.  The clock is the number of milliseconds since the last call, the ready descriptors are a set, a file
is its text or nothing, and printing and reading a floating-point number are two arbitrary functions.

Where the code and what is said about it differ, the model follows the code:

- The comment in `timer.h` promises the closest tick count.  The code rounds time-outs of a tick or more up and shorter
  ones down to no tick at all: `TimerHistory.TickCountClosest` says exactly when the promise is met, and
  `TimerHistory.NotClosest` gives inputs for which it is not.  So a timer with a time-out shorter than a tick may be
  called before it has passed: `TimerHistory.ThresholdBounds` says exactly when, and `TimerHistory.CalledTooEarly` is
  such a run.
- The traversal of the demo is in order, although it is named preorder, and the depth it reports counts only steps to
  the left on the way to a node (`RbMap.TraverseAll`, `RbMap.DeepestWay`, `RbMap.DepthTooLow`).  The counters are never reset, so a
  second traversal starts one level lower.
- A configuration with a negative integer is written with a minus sign, which the scanner skips; integers beyond the
  largest `int` become negative by the cast in the scanner.  `CfgRoundTrip.RoundTrip` gives the exact condition under
  which writing and reading come to nothing.

## Model

| member | source | states |
|---|---|---|
| RbTree.PlugRedBlack | mylibrary/rbtree.h:95-104 | a subtree with the right number of black nodes, put into a position that accepts it, makes a red-black tree |
| RbTree.UnplugRedBlack | mylibrary/rbtree.h:95-104 | and the other way round: at any position of a red-black tree the subtree is balanced and the path accepts it |
| RbTree.RotationInorder | mylibrary/rbtree.c:26-72 | a rotation keeps the order of the nodes, whatever the colours |
| RbInsert.StepFixable | mylibrary/rbtree.c:79-135 | a round of the insertion fix-up keeps the position one with at most one red-red pair, and the grandparent that it dereferences exists |
| RbInsert.InsertFixRedBlack | mylibrary/rbtree.c:74-138 | the fix-up ends, for any such position, in a red-black tree with a black root |
| RbInsert.InsertFixInorder | mylibrary/rbtree.c:74-138 | the fix-up leaves the order of the nodes as the link made it |
| RbErase.StepEffort | mylibrary/rbtree.c:145-215 | each round of the erasure fix-up comes closer to the end, even where a red sibling first moves the focus one level down |
| RbErase.StepShort | mylibrary/rbtree.c:145-215 | each round finds the sibling, and after a rotation the new sibling, that it dereferences without a test, and leads to a position that is one black node short, or to a red-black tree |
| RbErase.TurnedBalanced | mylibrary/rbtree.c:164-179 | the last rotations pay back the missing black node |
| RbErase.EraseFixRedBlack | mylibrary/rbtree.c:140-218 | the fix-up restores the red-black tree from any position that is one black node short |
| RbErase.GapShort | mylibrary/rbtree.c:226-281 | taking a node out, or its successor in order that takes its place, leaves a position that is one black node short if that was black, and otherwise a red-black tree |
| RbErase.EraseRedBlack | mylibrary/rbtree.c:220-286 | erasing any node of any red-black tree leaves a red-black tree |
| RbErase.EraseInorder | mylibrary/rbtree.c:220-286 | erasing takes exactly the erased node object out of the order |
| RbLinks.RotationReads | mylibrary/rbtree.c:26-72 | the nodes that a rotation dereferences exist and are different ones |
| RbLinks.RotationZip | mylibrary/rbtree.c:26-72 | after the pointer writes of a rotation the heap holds the rotated subtree at the same position |
| RbLinks.LinkZip | mylibrary/rbtree.h:165-172 | after the pointer writes of a link the heap holds a red leaf at the empty position |
| RbEraseLinks.SpliceZip | mylibrary/rbtree.c:268-281 | after a node with at most one child is spliced out, the heap holds its child in its position |
| RbEraseLinks.TakeOverZip | mylibrary/rbtree.c:232-263 | after the successor has taken over the links of the erased node, the heap holds the gap where the successor was and the successor where the erased node was |
| RbEraseLinks.TakenOverIsReplaced | mylibrary/rbtree.c:238-263 | the writes of the take-over, in their order and with their aliases, come to splicing the successor out and replacing the erased node by it |
| RbRoots.RbRoot.SetColor | mylibrary/rbtree.h:116-127 | paints one node and moves nothing |
| RbRoots.RbRoot.RotateLeft | mylibrary/rbtree.c:26-48 | changes exactly the links of a left rotation |
| RbRoots.RbRoot.RotateRight | mylibrary/rbtree.c:50-72 | changes exactly the links of a right rotation |
| RbRoots.RbRoot.FixBelowLeftChild | mylibrary/rbtree.c:83-108 | one round on the heap is one round on the tree, below a left child |
| RbRoots.RbRoot.FixBelowRightChild | mylibrary/rbtree.c:109-134 | one round on the heap is one round on the tree, below a right child |
| RbRoots.RbRoot.InsertColor | mylibrary/rbtree.c:74-138 | the heap ends up holding the fixed-up tree; nodes are relinked, never copied |
| RbRoots.RbRoot.Link | mylibrary/rbtree.h:165-172 | links a red leaf into an empty position |
| RbRoots.RbRoot.Insert | mylibrary/rbtree.c:74-138 | linking at any empty position of any valid tree and fixing up leaves a valid tree, with the node at its place in the order and all parent and child links consistent |
| RbRoots.RbRoot.EraseStepLeft | mylibrary/rbtree.c:147-180 | one round of the erasure fix-up on the heap, short on the left |
| RbRoots.RbRoot.EraseStepRight | mylibrary/rbtree.c:181-214 | one round of the erasure fix-up on the heap, short on the right |
| RbRoots.RbRoot.EraseColor | mylibrary/rbtree.c:140-218 | the loop dereferences no missing sibling, ends, and leaves the fixed-up tree on the heap |
| RbRoots.RbRoot.Unlink | mylibrary/rbtree.c:268-281 | splices a node with at most one child out of the heap |
| RbRoots.RbRoot.TakeOver | mylibrary/rbtree.c:238-263 | lets the successor take over position, links and colour of the erased node |
| RbRoots.RbRoot.Successor | mylibrary/rbtree.c:232-236 | finds the leftmost node of the right subtree |
| RbRoots.RbRoot.Erase | mylibrary/rbtree.c:220-286 | erasing any node of any valid tree leaves a valid tree, whose nodes and whose order are the old ones without exactly that node object |
| RbRoots.LinkFixable | mylibrary/rbtree.c:74-138 | a red leaf at an empty position of a red-black tree can be fixed up, and is then in its place in the order |
| RbRoots.EraseRemoves | mylibrary/rbtree.c:220-286 | the erased tree has the old order without one occurrence of the node |
| RbAugment.InsertStale | mylibrary/rbtree.c:308-321 | after an insertion only the new node, its children, the nodes above it and the siblings of those can be out of date |
| RbAugment.EraseStale | mylibrary/rbtree.c:323-347 | after an erasure only the nodes from the deepest one above the gap upwards, and the siblings of those, can be out of date |
| RbAugment.RecomputeFresh | mylibrary/rbtree.c:294-302 | recomputing a node whose children are up to date brings its subtree up to date |
| RbAugment.RecomputeIdle | mylibrary/rbtree.c:299-302 | recomputing a node that is up to date, as the walk does for a left child without a sibling, changes nothing |
| RbAugment.WalkUp | mylibrary/rbtree.c:293-305 | one round of the walk brings the subtree of the parent to the point where only the parent is left to recompute |
| RbAugmented.AugmentPath | mylibrary/rbtree.c:288-306 | the walk brings the whole tree up to date, recomputing every node after its children |
| RbAugmented.AugmentInsert | mylibrary/rbtree.c:312-321 | starts the walk where it covers all the damage of an insertion |
| RbAugmented.AugmentEraseBegin | mylibrary/rbtree.c:327-347 | returns the deepest node above the gap that the erasure will leave |
| RbAugmented.AugmentEraseEnd | mylibrary/rbtree.c:353-358 | repairs the damage of an erasure, or does nothing to a tree that has become empty |
| RbAugmented.InsertAugmented | mylibrary/rbtree.c:308-321 | if every augmented value is right before linking, fixing up and repairing, it is right afterwards, at every node |
| RbAugmented.EraseAugmented | mylibrary/rbtree.c:323-358 | if every augmented value is right before the three calls of an erasure, it is right afterwards, at every node |
| RbIteration.First | mylibrary/rbtree.c:363-374 | the first node in order, or null for an empty tree |
| RbIteration.Last | mylibrary/rbtree.c:376-387 | the last node in order, or null for an empty tree |
| RbIteration.Next | mylibrary/rbtree.c:389-416 | the node that follows in order, or null after the last one |
| RbIteration.Prev | mylibrary/rbtree.c:418-441 | the node that precedes in order, or null before the first one |
| RbIteration.NextPrev | mylibrary/rbtree.c:389-441 | following and preceding undo each other |
| RbIteration.Visit | mylibrary/rbtree.c:363-416 | a loop over first and next meets every node exactly once, in order, and ends |
| RbIteration.VisitBack | mylibrary/rbtree.c:376-441 | a loop over last and prev meets every node exactly once, in the reverse order, and ends |
| RbHeight.RedBlackHeight | mylibrary/demo/rbtree_demo.c:18-43 | a red-black tree of n nodes has height at most 2 * log2(n + 1) |
| RbMap.Search | mylibrary/demo/rbtree_demo.c:18-43 | finds the node object of a key in the map, in at most as many rounds as the tree is high |
| RbMap.LooksBounded | mylibrary/demo/rbtree_demo.c:18-43 | and so in at most 2 * log2(n + 1) rounds |
| RbMap.Descend | mylibrary/demo/rbtree_demo.c:48-69 | finds the key or the only empty position where it may be linked |
| RbMap.Insert | mylibrary/demo/rbtree_demo.c:45-74 | a new key is added to the map; a key that is there makes it fail, and then the map, every link and colour in the tree, and the rejected node are as they were |
| RbMap.Delete | mylibrary/demo/rbtree_demo.c:76-80 | removes the key of the node from the map |
| RbMap.Run | mylibrary/demo/rbtree_demo.c:18-80 | over any run of inserts, searches and deletes the tree answers as a finite map from keys to node objects |
| RbMap.Traverse | mylibrary/demo/rbtree_demo.c:82-102 | the recursive traversal visits the nodes in order; what it does to the two depth counters |
| RbMap.TraverseAll | mylibrary/demo/rbtree_demo.c:82-108 | the keys come in strictly increasing order, although the code calls it preorder; it leaves the current depth one lower and raises the maximal depth as far as it has counted; for fresh counters that is the height of the tree if, and only if, the way that always goes left is a longest one |
| RbMap.ReportedDepth | mylibrary/demo/rbtree_demo.c:82-102 | what the traversal counts comes to the height of the tree if, and only if, the way that always goes left is a longest one |
| RbMap.WayBounded | mylibrary/demo/rbtree_demo.c:82-102 | on the way to a node no more steps to the left are taken than the traversal counts |
| RbMap.DeepestWay | mylibrary/demo/rbtree_demo.c:82-102 | and on the way to some node as many are: what is counted is one more than the greatest number of steps to the left |
| RbMap.DepthTooLow | mylibrary/demo/rbtree_demo.c:82-102 | a red-black tree of two nodes, a root with a right child, has height 2, of which the traversal counts 1 |
| TimerSpec.TickWellFormed | mylibrary/timer.c:117-150 | a tick keeps the timers well-formed: none twice, none in both lists, every deadline within one turn of the counter |
| TimerSpec.StartRuns | mylibrary/timer.c:82-99 | a timer can be started exactly if it is on no list; then it waits last, for the tick of its time-out, and nothing else changes |
| TimerSpec.StopRuns | mylibrary/timer.c:107-115 | a timer can always be stopped; then it is on no list, and the others are where they were |
| TimerSpec.ApplyAllDue | mylibrary/timer.c:126-149 | a callback can only take timers off the list of those that are still to be called; what it starts goes elsewhere |
| TimerSpec.DrainOrder | mylibrary/timer.c:144-149 | whoever is called was due, is called once, and in the order of the list |
| TimerSpec.DrainTurn | mylibrary/timer.c:144-149 | a due timer is called if, and only if, no callback before its turn stops it |
| TimerHistory.TickOnTime | mylibrary/timer.c:117-150 | in a tick with any callbacks a pending timer is called if, and only if, this is the tick of its deadline and no callback stops it before its turn; otherwise it goes on waiting if it is not stopped, and is not running afterwards if nobody starts it again |
| TimerHistory.TickOrder | mylibrary/timer.c:117-150 | within a tick timers are called in the order in which they were added |
| TimerHistory.TickIdle | mylibrary/timer.c:117-150 | a timer that is not running and that nobody starts is not called |
| TimerHistory.RunClock | mylibrary/timer.c:185-201 | over any history, ticks * rate + accumulated is what was accumulated at first plus the clamped milliseconds; after a call less than a tick is left over |
| TimerHistory.RunOnTime | mylibrary/timer.c:82-202 | over any history of adds, deletes and clock calls, with callbacks that add and delete any timers, a pending timer that is not stopped before its turn is called in the tick of its deadline and in none before; if nobody starts it again that is its only call, and stopped before its turn it is never called |
| TimerHistory.StartedOnTime | mylibrary/timer.c:82-202 | a timer added with a time-out of k ticks and not stopped before its turn is called in the (k + 1)-th tick that follows, and in none before, whatever happens to it afterwards |
| TimerHistory.CalledOnce | mylibrary/timer.c:82-202 | a timer added with a time-out of k ticks, and not added again, is called at most once over the whole history, and only in the (k + 1)-th tick; it is called if, and only if, that tick has come and it was not stopped before its turn |
| TimerHistory.RunIdle | mylibrary/timer.c:82-202 | over any history a timer that is not running is not called until somebody starts it |
| TimerHistory.StoppedIdle | mylibrary/timer.c:107-115 | a stopped timer is not called until somebody starts it again |
| TimerHistory.CalledAtThreshold | mylibrary/timer.c:82-202 | a timer that is not added again is called only after the clamped milliseconds have reached its threshold, so never before its time-out if that is a tick or more; and it is called if, and only if, they have reached it and the timer was not stopped before its turn |
| TimerHistory.TickComesAtThreshold | mylibrary/timer.c:159-202 | the tick of a deadline has come if, and only if, the clamped milliseconds have reached the threshold |
| TimerHistory.ThresholdBounds | mylibrary/timer.h:84-98 | the threshold is below the time-out plus two ticks; it is no less than the time-out if, and only if, the time-out is at least a tick or fits into what is left of the current one |
| TimerHistory.TickCountRounds | mylibrary/timer.h:84-98 | time-outs of a tick or more are rounded up to ticks, shorter ones down to none |
| TimerHistory.TickCountClosest | mylibrary/timer.h:84-98 | the tick count is the closest one, as the comment promises, if, and only if, the time-out is a whole number of ticks, or is rounded up from half a tick or more, or is at most half a tick |
| TimerHistory.NotClosest | mylibrary/timer.h:84-98 | with ticks of 100 milliseconds, 101 become two ticks and 99 none, though one tick is closer to both |
| TimerHistory.CalledTooEarly | mylibrary/timer.c:82-202 | with ticks of 100 milliseconds, a timer of 50 that is added a millisecond before a tick is called after that millisecond |
| TimerHistory.AtMostThreeTicks | mylibrary/timer.c:185-201 | a call of the clock runs at most three ticks |
| TimerClock.DriveTicks | mylibrary/timer.c:159-202 | one clock call divides the milliseconds that have really passed into ticks and a rest of less than a tick; negative time counts as none, and a leap of three ticks or more as exactly one |
| TimerClock.RunTotal | mylibrary/timer.c:185-201 | over any history ticks * rate + accumulated is what was accumulated at first plus the milliseconds that really passed, without those that went backwards and without what leaps have over one tick |
| TimerClock.RunSteady | mylibrary/timer.c:185-201 | if every clock call comes with at least 0 and less than three ticks of milliseconds, none is lost or added |
| TimerClock.CalledInTime | mylibrary/timer.c:82-202 | then a timer that is not added again is called if, and only if, the milliseconds that really passed, with those accumulated, make one tick more than its tick count, and it was not stopped before its turn |
| TimerRestart.TickStarts | mylibrary/timer.c:117-150 | a timer that a callback adds in a tick, its own or another's, counts its ticks from the next one |
| TimerRestart.RestartedOnTime | mylibrary/timer.c:117-202 | and is called, if it is not stopped before its turn, in the (k + 1)-th tick that follows and in none before, in the same clock call or later: a timer that adds itself again is periodic |
| TimerWheel.WrapUnique | mylibrary/timer.c:133-140 | within one turn of the 32-bit counter its value tells the tick |
| TimerWheel.ExpireBuckets | mylibrary/timer.c:124-140 | the bucket of the current tick holds all the timers that are due, for any number of buckets; no other bucket holds any |
| TimerWheel.ExpireRepresents | mylibrary/timer.c:124-142 | after the scan and the increment, which may wrap, the wheel stands for the collection without the due timers |
| TimerWheel.Scan | mylibrary/timer.c:133-140 | moves exactly the due timers out of the bucket, in order |
| TimerWheel.Timer.constructor | mylibrary/timer.c:23-51 | an empty collection, and a full tick accumulated |
| TimerWheel.Timer.IsRunningIsRunning | mylibrary/timer.h:67-75 | a timer is running exactly if it is pending or still to be called in the current tick |
| TimerWheel.Timer.AddTimer | mylibrary/timer.c:82-99 | fails, where the code crashes on purpose, exactly for a running timer; otherwise adds the timer to the collection, and no other becomes running or stops |
| TimerWheel.Timer.DelTimer | mylibrary/timer.c:107-115 | takes the timer off the collection, wherever it is; exactly the others that were running still are |
| TimerWheel.Timer.TimerTick | mylibrary/timer.c:117-150 | refines a tick of the plain collection, calls included, with callbacks that do anything |
| TimerWheel.Timer.DriveTimer | mylibrary/timer.c:159-202 | refines the clock of the plain collection for any elapsed time, and runs as many ticks as the milliseconds that really passed make up with those accumulated, one for a leap of three or more, none of its own for negative time |
| TimerWheel.Timer.Play | mylibrary/timer.c:82-202 | over any history the wheel calls what the plain collection of (deadline, timer) pairs calls, tick by tick |
| CfgScanner.Span | mylibrary/cfg_scanner.l:15-20 | where a stretch of characters of a class ends |
| CfgScanner.BestBeats | mylibrary/cfg_scanner.l:41-58 | the rule that is chosen matches more than any other, or as much and is given first |
| CfgPatterns.LengthMatches | mylibrary/cfg_scanner.l:10-58 | the characters that a rule takes are matched by its pattern |
| CfgPatterns.LengthBounds | mylibrary/cfg_scanner.l:10-58 | no longer beginning of the text is matched by that pattern |
| CfgPatterns.LongestMatch | mylibrary/cfg_scanner.l:41-58 | on any text the chosen rule matches, no pattern matches more, and none that is given earlier matches as much |
| CfgScanner.ScanName | mylibrary/cfg_scanner.l:48 | an identifier that is no keyword becomes a parameter token, whatever follows that cannot continue it |
| CfgScanner.ScanKeyword | mylibrary/cfg_scanner.l:43-44 | the keywords become booleans, because their rules are given before that of identifiers |
| CfgScanner.ScanDigits | mylibrary/cfg_scanner.l:50 | digits before a blank become one decimal token, not a float and not a hexadecimal number |
| CfgScanner.ScanFloat | mylibrary/cfg_scanner.l:51 | digits around a point become one float token |
| CfgNumbers.ScanFloatWord | mylibrary/cfg_scanner.l:51 | so does a float of any form the pattern allows, with an exponent and a suffix or without |
| CfgNumbers.ScanDecimal | mylibrary/cfg_scanner.l:50 | a decimal number with any suffix becomes the number that its digits stand for, cut to an int |
| CfgNumbers.ScanHex | mylibrary/cfg_scanner.l:49 | a hexadecimal number in small or capital letters with any suffix becomes the number that it is the numeral of, cut to an int |
| CfgNumbers.StoredModulo | mylibrary/cfg_scanner.l:49-50 | the int that is stored differs from the number by a multiple of 2 to the 32, and not at all if it fits |
| CfgScanner.ScanString | mylibrary/cfg_scanner.l:52-56 | a body between quotes becomes a string token without the quotes and with its escapes as they are |
| CfgScanner.ScanMinus | mylibrary/cfg_scanner.l:58 | a minus sign is skipped |
| CfgScanner.ScanBlank | mylibrary/cfg_scanner.l:57 | blanks are skipped, one by one or all at once |
| CfgScanner.ScanComment | mylibrary/cfg_scanner.l:41-75 | a comment with any text is skipped with its line |
| CfgNumbers.ScanOpenComment | mylibrary/cfg_scanner.l:60-75 | a comment without a line end is never left, so there are no tokens |
| CfgLexemes.PrintNatReads | mylibrary/cfg_loader.c:509-533 | printed decimal digits stand for the number that was printed |
| CfgLexemes.PrintNatAtoi | mylibrary/cfg_scanner.l:50 | reading them back with atoi gives that number, cut to an int |
| CfgLayout.PrintIntReads | mylibrary/cfg_loader.c:509-533 | a printed integer is a minus sign exactly if it is negative, and the digits of its magnitude without a leading zero |
| CfgLayout.ParamLine | mylibrary/cfg_loader.c:535-581 | the line of a parameter is its name, blanks up to column 20 or none, the assignment and the value |
| CfgLayout.UnitsTextAppend | mylibrary/cfg_loader.c:560-575 | one more value in a list adds a comma between blanks and its own text |
| CfgLayout.ConfigHead | mylibrary/cfg_loader.c:590-620 | a configuration without parameters is three empty comments and an empty line |
| CfgLayout.ConfigLines | mylibrary/cfg_loader.c:590-620 | one more parameter adds its line at the end |
| CfgLexemes.ScanLexeme | mylibrary/cfg_scanner.l:41-58 | every piece that is written is scanned as that piece by the longest match, whatever follows it in a written text |
| CfgLexemes.ScanLexemes | mylibrary/cfg_scanner.l:41-58 | and so is any sequence of pieces that are kept apart |
| CfgLexemes.ParamWritten | mylibrary/cfg_loader.c:535-581 | the line of a parameter consists of such pieces, with the tokens of the parameter |
| CfgLexemes.ScanConfig | mylibrary/cfg_loader.c:590-620 | the scanner finds in the text of a configuration the tokens of its parameters and nothing else |
| CfgRoundTrip.SequenceReads | mylibrary/cfg_parser.y:78-83 | the grammar reads the values of a list back, in order |
| CfgRoundTrip.GrammarReads | mylibrary/cfg_parser.y:52-83 | the grammar reads the parameters back: names, types, values, elements and order |
| CfgGrammar.ParsesWhatDerives | mylibrary/cfg_parser.y:52-83 | the parser accepts exactly the token sequences that are a concatenation of expressions by the productions, and gives the parameters that they derive |
| CfgGrammar.NothingElse | mylibrary/cfg_parser.y:52-57 | whatever follows the expressions without starting another one makes the whole text an error |
| CfgRoundTrip.ReadsBack | mylibrary/cfg_loader.c:509-620 | whatever can be printed is read back, except that minus signs are lost, and every true value becomes 1 |
| CfgRoundTrip.ReadsTheSame | mylibrary/cfg_loader.c:509-620 | value by value: the same names, types, strings, truth values and integers that are not negative; the magnitude of negative ones, except the least int, which stays; and what atof makes of the digits of a float |
| CfgRoundTrip.ParsedIsReadable | mylibrary/cfg_parser.y:52-83 | whatever can be read has names that are identifiers but no keywords, strings that are string bodies, and no empty list |
| CfgRoundTrip.RoundTrip | mylibrary/cfg_loader.c:590-620 | a configuration is read exactly as it was written if, and only if, every parameter is writable; infinite and undefined numbers are not |
| CfgRoundTrip.NotFiniteIsLost | mylibrary/cfg_loader.c:509-620 | a configuration with a number that is infinite or undefined is written as a text that cannot be loaded |
| CfgRoundTrip.LoadSaveLoad | mylibrary/cfg_loader.c:208-242 | what has been loaded from any text can be saved and loaded again if, and only if, its floating-point numbers are finite; without such numbers it is stable from then on |
| CfgRoundTrip.MinusIsLost | mylibrary/cfg_scanner.l:58 | the parameter a = -1 is read back as a = 1 |
| CfgLoader.FirstOf | mylibrary/cfg_loader.c:310-323 | the place of the first parameter of a name |
| CfgLoader.ConfigCB.AddParameter | mylibrary/cfg_loader.c:153-158 | appends a parameter and counts it |
| CfgLoader.ConfigCB.AddConfigParam | mylibrary/cfg_loader.c:183-198 | appends a new parameter of the given name and value |
| CfgLoader.ConfigCB.LookupConfig | mylibrary/cfg_loader.c:310-323 | the first parameter object of the name, or null if there is none |
| CfgLoader.ConfigCB.WriteConfig | mylibrary/cfg_loader.c:590-620 | the loops emit the text of the configuration |
| CfgLoader.WriteParameter | mylibrary/cfg_loader.c:535-581 | emits one line, for every type of value |
| CfgLoader.WriteList | mylibrary/cfg_loader.c:560-575 | emits the values of a list with commas between them |
| CfgLoader.AllocList | mylibrary/cfg_loader.c:70-96 | the array of a list value holds the collected values, in order |
| CfgLoader.Parser.ValueSequence | mylibrary/cfg_parser.y:78-83 | the mid-rule actions append exactly the values that are read, and it succeeds exactly if the grammar does |
| CfgLoader.Parser.CfgList | mylibrary/cfg_parser.y:52-57 | the actions append exactly the parameters that are read, and it succeeds exactly if the whole of the tokens is read |
| CfgLoader.ParseConfig | mylibrary/cfg_loader.c:208-242 | 0 and the parameters that the tokens of the text derive by the productions, or -1 for a missing file or a text from which none derive |
| CfgUtil.UpdateBimCfg | mylibrary/cfg_util.c:67-128 | all or nothing: an unknown name, a list or an unreadable file leaves the file as it was; otherwise it holds the text of the updated configuration |
| CfgUtil.ReadBimCfg | mylibrary/cfg_util.c:139-198 | returns for each name the value of its first parameter, of whatever type; it stops at the first name that has none or a list, and those before it have been stored already |
| CfgUtil.UpdateReplaces | mylibrary/cfg_util.c:86-117 | an update fails exactly for an unknown name or a list; otherwise the first parameter of each name is replaced by the last value given for it, and nothing else |
| CfgUtil.UpdateStores | mylibrary/cfg_util.c:86-117 | the first parameter of a name gets, as its type is, the string, the integer, the number or the truth value of the last argument of the name; every other parameter stays as it was |
| CfgUtil.UpdateFails | mylibrary/cfg_util.c:86-104 | an update fails exactly if some name has no parameter, or a list as its first one |
| CfgUtil.ReadAllReads | mylibrary/cfg_util.c:150-192 | reading goes on as long as the first parameters of the names have values, and gives exactly those |
| CfgUtil.UpdatedValues | mylibrary/cfg_util.c:86-192 | reading a name after an update gives the last value given for it, and for other names what they had |
| CfgUtil.UpdateReadsBack | mylibrary/cfg_util.c:67-128 | the file that an update of a writable configuration leaves is read as that configuration with the given values if, and only if, those values are writable |
| CfgUtil.UpdateThenRead | mylibrary/cfg_util.c:67-198 | after an update with writable values, reading the names back from the file gives for each the string, integer, number or truth value of its last argument, as the type of the parameter was |
| CfgUtil.TwoUpdates | mylibrary/cfg_util.c:67-128 | two updates of a file come to one update with all the arguments, as far as the first one leaves writable values |
| IoEventSpec.PassRegistry | mylibrary/io_event_driver.c:106-116 | every callback is the one registered at the moment of its call, and the calls and nothing else change the registry: no element is lost |
| IoEventOrder.LastWordCounts | mylibrary/io_event_driver.c:184-236 | what is registered for a descriptor is what was said last about it |
| IoEventOrder.OrderKept | mylibrary/io_event_driver.c:184-236 | two descriptors on a list that are not taken off keep their order, whatever else is listened to or not |
| IoEventOrder.NewBehind | mylibrary/io_event_driver.c:184-210 | a descriptor newly listened to comes behind everybody who is on its list and stays |
| IoEventOrder.FirstComesFirst | mylibrary/io_event_driver.c:184-210 | of two descriptors that are newly listened to the one that was first comes first |
| IoEventOrder.FirstCalledFirst | mylibrary/io_event_driver.c:92-117 | and, of those that a pass calls, is called first |
| IoEventOrder.NewBehindCalled | mylibrary/io_event_driver.c:106-116 | what a callback newly listens to comes behind the descriptor that the callback was called for |
| IoEventSpec.PassOrder | mylibrary/io_event_driver.c:106-116 | calls come in order, so no descriptor is called twice in a pass |
| IoEventSpec.PassTurn | mylibrary/io_event_driver.c:106-116 | a descriptor is called if, and only if, no callback before its turn takes it off |
| IoEventDrivers.PassCalls | mylibrary/io_event_driver.c:92-117 | in a pass over the registered elements exactly those that are ready and not removed before their turn are called, once each, in the order of the list |
| IoEventDrivers.ReadyIn | mylibrary/io_event_driver.c:97-104 | those that are ready, and those that are not, are each in the order of the list |
| IoEventDrivers.HoldsMove | mylibrary/io_event_driver.c:97-104 | moving an element between the lists of its type keeps at most one element per descriptor, and the registry |
| IoEventDrivers.IOEventDriver.GetIoEventElement | mylibrary/io_event_driver.c:54-75 | finds the element of a descriptor on either list, or there is none |
| IoEventDrivers.IOEventDriver.ListenIoEvent | mylibrary/io_event_driver.c:184-210 | registers the callback, replacing one that is there without moving its element; a new element goes behind all others of its type; nobody's turn changes |
| IoEventDrivers.IOEventDriver.UnlistenIoEvent | mylibrary/io_event_driver.c:220-236 | takes the descriptor off the registry and off those whose turn is to come; -1 if it was not registered |
| IoEventDrivers.IOEventDriver.MoveReady | mylibrary/io_event_driver.c:97-104 | the ready elements go to the working set and the others stay, both in order |
| IoEventSpec.PassRotates | mylibrary/io_event_driver.c:106-116 | a pass whose callbacks change nothing puts the called elements behind the others, in order |
| IoEventDrivers.IOEventDriver.CallFirst | mylibrary/io_event_driver.c:108-115 | the first element goes to the end of its list before its callback is called, and what the callback does takes effect on both lists |
| IoEventDrivers.IOEventDriver.Drain | mylibrary/io_event_driver.c:106-116 | the drain ends, with the calls, the registry and the lists of the pass |
| IoEventDrivers.IOEventDriver.CheckSelect | mylibrary/io_event_driver.c:92-117 | refines a pass over the registry, with callbacks that listen and unlisten arbitrarily; ends with empty working sets, and with every list in the order that the pass gives it |
| Hash.UniqueKeys | mylibrary/hash.c:111-131 | no key occurs twice, in one bucket or in two |
| Hash.AddRepresents | mylibrary/hash.c:155-157 | appending an element of a new key to the bucket of its key adds it to the map |
| Hash.DelRepresents | mylibrary/hash.c:179-192 | unlinking the element of a key removes exactly that key from the map |
| Hash.HashContext.constructor | mylibrary/hash.c:69-93 | an empty map, for any positive number of buckets |
| Hash.HashContext.LookupHash | mylibrary/hash.c:111-131 | the element that the map has for the key |
| Hash.HashContext.AddHash | mylibrary/hash.c:140-159 | adds the element at the end of the bucket of its key, or fails and changes nothing if its key is there |
| Hash.HashContext.DelHash | mylibrary/hash.c:168-194 | removes exactly the element that a lookup would return from its bucket, or fails and changes nothing |
| Hash.HashContext.PerformAll | mylibrary/hash.c:111-194 | over any run, for any hash function, the hash answers as a finite map from keys to elements |
| MemTrackers.ChargeBalanced | mylibrary/mem_tracker.c:81-104 | counting a new block in keeps the table in balance with the live blocks |
| MemTrackers.DischargeBalanced | mylibrary/mem_tracker.c:106-122 | counting any live block out keeps the table in balance; the entry goes with the last block |
| MemTrackers.NoLeak | mylibrary/mem_tracker.c:81-122 | the table is empty if, and only if, no block is alive |
| MemTrackers.StepCounts | mylibrary/mem_tracker.c:81-231 | a call changes the table by one block and its bytes less at the site of the old tag and one block and its bytes more at that of the new one, at one site or at two, and sites without blocks are not in it |
| MemTrackers.RunBalanced | mylibrary/mem_tracker.c:81-231 | over any run on live blocks, the table has an entry for a site exactly when a live block carries it, with the number and the summed sizes of those blocks |
| MemTrackers.MemTracker.PerformAll | mylibrary/mem_tracker.c:81-231 | over any run on live blocks the tracker has the table and the live blocks of that run |
| MemTrackers.MemTracker.constructor | mylibrary/mem_tracker.c:46-51 | no block is alive and the table is empty |
| MemTrackers.MemTracker.CheckMalloc | mylibrary/mem_tracker.c:81-104 | adds to the entry of the tag, which is made if there is none |
| MemTrackers.MemTracker.CheckFree | mylibrary/mem_tracker.c:106-122 | subtracts from the entry of the tag, which is removed when its count comes to 0 |
| MemTrackers.MemTracker.DebugMalloc | mylibrary/mem_tracker.c:133-157 | a new live block that carries the given file, line and size; the table has one block and that size more at that site, and no other change |
| MemTrackers.MemTracker.DebugRealloc | mylibrary/mem_tracker.c:185-212 | the block, moved or not, carries the new file, line and size; the table has the old block and size less at the old site and the new ones more at the new site |
| MemTrackers.MemTracker.DebugFree | mylibrary/mem_tracker.c:222-231 | exactly that block is no longer alive; the table has it and its size less at its site |
| Lists.AddBetween | mylibrary/list.h:54-62 | a node between two neighbours of a ring |
| Lists.ListAdd | mylibrary/list.h:77-80 | the entry comes first |
| Lists.ListAddTail | mylibrary/list.h:91-94 | the entry comes last |
| Lists.ListDel | mylibrary/list.h:121-126 | the list without that entry, whose links become null |
| Lists.ListDelInit | mylibrary/list.h:159-163 | the list without that entry, which becomes a list of its own |
| Lists.ListMoveTail | mylibrary/list.h:181-186 | the entry goes from its place to the end |
| Lists.ListMove | mylibrary/list.h:170-174 | the entry goes from its place to the front |
| Lists.ListMoveTo | mylibrary/list.h:170-174 | the entry leaves its list and comes first on another |
| Lists.ListMoveTailTo | mylibrary/list.h:181-186 | the entry leaves its list and comes last on another |
| Lists.ListReplace | mylibrary/list.h:139-146 | a new node takes the place of an entry, or of a head, even of an empty list |
| Lists.ListReplaceInit | mylibrary/list.h:148-153 | the same, and the old node becomes a list of its own |
| Lists.ListRotateLeft | mylibrary/list.h:231-239 | the first entry goes to the end; an empty list stays empty |
| Lists.EmptyIsEmpty | mylibrary/list.h:203-206 | the test on the head is true exactly for the empty list |
| Lists.EmptyIsOff | mylibrary/timer.h:67-75 | the test of both links of an entry tells whether it is on a list, if entries on no list are lists of their own |
| Lists.SingularIsSingular | mylibrary/list.h:245-248 | the test on the head is true exactly for lists of one entry |
| Lists.Cut | mylibrary/list.h:250-260 | cuts a list behind an entry into two rings |
| Lists.ListCutPosition | mylibrary/list.h:276-288 | the part up to the entry goes to the other list; the cases in which nothing is done |
| Lists.ListSplice | mylibrary/list.h:309-314 | the entries of one list before those of another |
| Lists.ListSpliceTail | mylibrary/list.h:321-326 | the entries of one list behind those of another |
| Lists.ListSpliceInit | mylibrary/list.h:335-342 | the same, and the first list becomes empty |
| Lists.ListSpliceTailInit | mylibrary/list.h:352-359 | the entries of one list behind those of another, and the first list becomes empty |
| Lists.CutAndSplice | mylibrary/list.h:276-314 | cutting a list that is not empty, at any of its entries or its head, and splicing the piece back restores it |
| CircBuffers.StoredHeld | mylibrary/circ_buffer.c:76-89 | data copied to the end, in two parts if it wraps, is held behind what was held |
| CircBuffers.HeldRest | mylibrary/circ_buffer.c:111-124 | moving the beginning on drops exactly the bytes that were in front |
| CircBuffers.RunConserves | mylibrary/circ_buffer.c:68-181 | over any run, what was held and what is accepted is, in order, what is taken and what is held at the end |
| CircBuffers.FirstInFirstOut | mylibrary/circ_buffer.c:68-181 | as long as nothing is dropped unread, what was held and what is put in comes to the callers of get in the same order, up to what is left |
| CircBuffers.CircBuffer.Put | mylibrary/circ_buffer.c:68-91 | appends the bytes, or fails and changes nothing exactly if they do not fit |
| CircBuffers.CircBuffer.Get | mylibrary/circ_buffer.c:103-126 | copies the first bytes out and drops them, or fails and changes nothing exactly if there are fewer |
| CircBuffers.CircBuffer.GetNoCopy | mylibrary/circ_buffer.c:138-149 | drops the first bytes, or fails and changes nothing exactly if there are fewer |
| CircBuffers.CircBuffer.Peek | mylibrary/circ_buffer.c:161-181 | copies the first bytes out and drops nothing, or fails exactly if there are fewer |
| CircBuffers.CircBuffer.PerformAll | mylibrary/circ_buffer.c:68-181 | any run of calls returns, and leaves held, what the same run on a plain queue does |

## Left out

- rb_replace_node, the pointer packing of parent and colour, `container_of`, and the payload of the demo's nodes.
- Memory that cannot be allocated, freeing memory that was allocated, and the layout of blocks.
- `deinit_timer`, the build without tick-loss compensation, calls of `drive_timer` or `check_select` from callbacks, and negative time-outs.
- TimerWheel.Timer.DriveTimer: reading the clock is not modelled; the elapsed milliseconds are a parameter, and their sum does not overflow a `long`.
- TimerWheel.Timer.IsRunningIsRunning: a search of the buckets stands for the test of the element's own two links; `Lists.EmptyIsOff` and `Lists.ListDelInit` say of one linked list why that test tells.
- The lists in the timer, the event driver, the hash and the configuration are sequences; that linked rings refine sequences is proved once, in `List.dfy`.
- CfgLoader.ParseConfig: a text that ends within a comment has no tokens, and is refused here; the scanner's loop never ends on it.
- CfgLexemes.PrintNatAtoi: what `atoi` does beyond the range of `int` is modelled as saturating at `long` and keeping the low 32 bits.
- CfgRoundTrip.RoundTrip: what `%f` prints for a number, and what `atof` makes of it, are parameters; `%f` is taken to print digits around a point, or a word such as `inf` or `nan`, after a minus sign or none.
- The depth limit of the generated parser's stack, NUL characters, and files that cannot be opened for writing.
- `load_parameter`, the functions that set single parameters, and iteration over a configuration: they add no branching that is not covered.
- CfgUtil.UpdateBimCfg: variable arguments are a sequence of names, each with the value it would be fetched as for each type; arguments of a wrong type are not modelled.
- IoEventDrivers.IOEventDriver.CheckSelect: `select`, the descriptor sets and the polling loop around it are not modelled; elements are values on the lists, not nodes.
- Hash.HashContext.LookupHash: any hash function is allowed, so `djb_hash` itself is not modelled; the keys of elements do not change while they are in the hash.
- MemTrackers.MemTracker.DebugMalloc: counts and sizes are unbounded integers, and allocation succeeds; `debug_calloc`, `debug_strdup` and `printMemStat` are not modelled.
- CircBuffers.CircBuffer.Put: sizes are not negative and their sum does not overflow an `int`; the capacity is positive.
- `list_is_last` and the iteration macros of the list header.
- `log.c`, `hex_util.c`, the shell scripts and the build files.
