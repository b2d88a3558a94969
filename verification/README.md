# Verified models of CloneWorks and its bundled examples

This project models the parts of the CloneWorks repository where being right is hardest to
see from one function, and proves what they promise, for all inputs. They are the clone
detection pipeline of CloneWorks itself, and the algorithmic code that the repository bundles
under `example/`, most of it from monit 4.2.

| files | what they model |
|---|---|
| `Options` | a value that may be missing |
| `ServiceGraph`, `ControlSpec`, `ControlLaws`, `Control`, `DependCheck` | start, stop, restart, monitor and unmonitor of services along a dependency graph, and the check of that graph |
| `Rotation`, `HashBuffer`, `Sha1Spec`, `Sha1Block`, `Sha1`, `Md5` | incremental hashing of messages that arrive in pieces |
| `TermBags`, `CloneModel`, `CloneDetection`, `ClonePipeline` | prefix-filtered clone detection, with one index or with partitions |
| `ProcessTree` | linking a flat process table into a tree and totalling its subtrees |
| `Calendar` | time differences and ISO week numbers |
| `StemmerSpec`, `Stemmer`, `StemmerMeaning`, `StemmerExamples` | the Porter stemmer on one buffer, its rules and the words of its comments |
| `ReplaceString`, `Base64`, `UrlCodec`, `Checksum`, `QueryString`, `Resources`, `Highlighter` | string replacement, base64, URL escapes, the Internet checksum, query strings, resource counters, overlap removal |

How the model is built:

- **Imperative code stays imperative.** Service objects, hash contexts, the process table, the
  stemmer's buffer, the clone index and the resource counters are classes or arrays changed in
  place. Every method is proved against a specification on values (`ControlSpec.Raised` and
  `Lowered`, `HashBuffer.Represents`, `ProcessTree.Filled`, `StemmerSpec.Stems`, ...), and the
  laws are lemmas about that specification.
- **What a specification means is told again without it.** Where code and specification use
  the same rule (the padding, the threshold, the events, the suffix rules, the overlap test,
  the alphabets), a lemma states the rule in other terms: by positions and numbers, by ratios,
  by the table of the standard, or by the words of the source's own comments.
- **The operating system is an oracle.** Whether a process runs is a function of the number
  of the question and the service, so its answer may change from one question to the next,
  and every question is recorded with the service it was about. Start and stop actions are
  recorded in a ghost history. File reads deliver any number of bytes and may fail.
- **Pointers** to services and process entries are positions in the list or table.
- **C arithmetic is explicit.** `%` and `/` that round toward zero, 32-bit wrap-around of the
  byte counters and `unsigned char` arithmetic are written out.

Where the code and what is said of it differ, the model follows the code:

- `md5.c` and `sha.c` speak of file lengths up to 2^64 bits, but the carry of the counter looks
  at one piece only. A single piece of 2^32 bytes or more is counted correctly exactly under the
  condition of `HashBuffer.CountAddsExactly`, and 2^33 bytes at once are miscounted
  (`HashBuffer.LongPieceMiscounted`); for shorter pieces the count is always right.
- The detector reports what its similarity definition asks for, except pairs that share no
  token at all (`CloneDetection.DetectsExactly`), which matters only when the threshold is not
  positive (`CloneModel.ReportableIsSimilar`, `CloneModel.NothingSharedSimilar`).
- With partitions, no pair is lost when ids rise with the position in the file, as the block
  writer numbers them. For other ids, partitions of a given size lose nothing, whatever the
  blocks contain, exactly when no block has a larger id than one of a later partition
  (`ClonePipeline.PartitionsLose`); `ClonePipeline.TwoBlocksLost` is an input that loses a pair.
- An escape cut off by the end of a URL is read past the end (`UrlCodec.CutEscape`); the scan
  stays inside the text exactly when there is none (`UrlCodec.DecodeReads`). Looking for an
  empty text likewise leaves the searched one (`ReplaceString.CountWords`).
- Printing parameters and parsing them gives back the reversed list exactly for the
  parameters described by `QueryString.AllCarried`: the scanner looks for `=` one character ahead.
- `url_encode` keeps escapes that are already there and leaves a plus alone, so decoding gives
  the text back exactly when it has neither (`UrlCodec.RoundTrip`, `UrlCodec.PlusLost`).
- With `max_cycle` below 2, failing resource checks follow each other directly and only the
  first is acted on (`Resources.EveryFailureActed`, `Resources.SecondFailureIgnored`).
- The comment of `CleanMatches` speaks of matches lying inside others; the code drops matches
  that *start* inside another, and of two matches at one place the shorter one wins
  (`Highlighter.ShorterStays`). Only matches inside others are dropped exactly when none starts
  inside one in front of it that starts in no earlier match, and ends behind that one
  (`Highlighter.OnlyInnerExactly`). The coloured text
  equals the code exactly when no match that stays has several lines (`Highlighter.Highlightor.HighLight`, `Highlighter.BreakAdded`).
- `isClone` has a final branch marked as a possible bug; it is reached only when both blocks are
  empty (`CloneDetection.IsClone`).
- The parser's loop check refuses more than loops: it accepts a graph exactly when all names are
  defined and no service can be reached from another one on two ways
  (`DependCheck.Parser.CheckDepend`), so a diamond without a loop is refused
  (`DependCheck.DiamondRefused`). Two services may share a prerequisite
  (`DependCheck.ChainsAccepted`). The control laws need no more than a graph without loops.

## Model

| member | source | states |
|---|---|---|
| ServiceGraph.DependantsShrink | example/monit-4.2/control.c:492-526 | going from a service up to one that depends on it strictly shrinks the set of transitive dependants, so `do_depend` ends on every graph without loops |
| ServiceGraph.DependantsComplete | example/monit-4.2/control.c:498-525 | scanning the whole service list finds every transitive dependant |
| ServiceGraph.IsMeans | example/monit-4.2/monitor.h:157-157 | two names are the same exactly when they have the same letters, capital or small |
| ControlSpec.RaisedNode | example/monit-4.2/control.c:310-352 | marking a service, walking over what it needs and then acting on it is one walk from that service; terminating and closed on any graph, ordered on graphs without loops |
| ControlSpec.RaisedCompose | example/monit-4.2/control.c:323-329 | two raising walks after each other are one walk from both sets of roots, although the second skips what the first visited |
| ControlSpec.LoweredCompose | example/monit-4.2/control.c:498-525 | two lowering walks after each other are one walk that covers both sets, each service acted on once and after everything depending on it |
| ControlSpec.EventMeans | example/monit-4.2/control.c:333-387 | a recorded start or stop of a service means: it was spawned exactly if the service has the command for it and, being a process, was answered not to run (to run, for a stop); a stop failed exactly if it was spawned for a process that the last answer of the wait said still runs |
| Control.Monit.GetService | example/monit-4.2/util.c:442-456 | finds a service by its name without regard to case, or reports that there is none |
| Control.Monit.ResetDepend | example/monit-4.2/control.c:290-299 | clears all visited flags and changes nothing else |
| Control.Monit.MonitorSet | example/monit-4.2/control.c:451-462 | turns monitoring of one service on and changes nothing else |
| Control.Monit.MonitorUnset | example/monit-4.2/control.c:469-480 | turns monitoring of one service off and changes nothing else |
| Control.Monit.DoStart | example/monit-4.2/control.c:310-352 | visits exactly the unvisited services reachable from the target, monitors them, and records one start for each, with every prerequisite visited earlier; a spawn is decided by a question about that very service, asked during the walk; ends on cyclic graphs too; the start command is run exactly for a service that has one and is not a process answered to run |
| Control.Monit.DoMonitor | example/monit-4.2/control.c:397-421 | the same walk, turning monitoring on without any action |
| Control.Monit.WaitStop | example/monit-4.2/control.c:568-588 | asks about this service only, goes on while it runs, and ends when it is gone, monit stops, or the poll time is used up; then one last question decides |
| Control.Monit.DoStop | example/monit-4.2/control.c:360-389 | one effective stop per service until the flags are reset: spawned exactly for a service with a stop command that is not a stopped process, by a question of this call, and failed exactly when the process still runs at the last question of the wait; nothing is asked about another service meanwhile |
| Control.Monit.DoUnmonitor | example/monit-4.2/control.c:428-444 | turns monitoring off once and touches nothing else |
| Control.Monit.NamesService | example/monit-4.2/control.c:500-522 | found exactly when one service depends directly on the other |
| Control.Monit.RaiseDependants | example/monit-4.2/control.c:492-526 | `do_depend` for "start" and "monitor" is one raising walk from all transitive dependants |
| Control.Monit.LowerDependants | example/monit-4.2/control.c:492-526 | `do_depend` for "stop" and "unmonitor" lowers exactly the transitive dependants, dependants first, although it may meet a service on many paths |
| Control.Monit.CheckStart | example/monit-4.2/control.c:222-238 | the "start" branch: leaves a running process or one without start method alone, otherwise stops the dependants and starts the closure |
| Control.Monit.CheckStop | example/monit-4.2/control.c:240-249 | the "stop" branch: only unmonitors a process without stop method, otherwise lowers dependants and target |
| Control.Monit.CheckRestart | example/monit-4.2/control.c:251-266 | the "restart" branch: starts again only if the target's own stop succeeded |
| Control.Monit.CheckService | example/monit-4.2/control.c:209-284 | an unknown name changes nothing; otherwise the command is carried out as specified for that service |
| Control.Monit.ControlAll | example/monit-4.2/control.c:90-108 | a command for all services leaves all flags reset. A start run has targets: exactly their dependants were stopped, exactly what the targets bring up was started, all that was stopped was started again, and everything else is a process without start method or found running when asked about it; all end monitored. A stop run starts none, stops exactly the services with a way to stop and all that depends on them, and leaves none monitored. A restart run stops exactly its targets and their dependants and starts all that the targets bring up whose own stop succeeded. All keep the order and once-only laws and decide by questions of the run; monitor, also on cyclic graphs, and unmonitor end with every service on, or off. What each event says of its service is told from the answers: every service brought up with a start command had it run, or is a process answered to run; the dual holds for the stops |
| ControlLaws.FailedStop | example/monit-4.2/control.c:262-266 | a restart that ends with the stop left a failed stop of the target itself in the history |
| ControlLaws.NotRestarted | example/monit-4.2/control.c:261-266 | a service that a restart run stopped and did not start again depends on one whose own stop failed, or is one |
| ControlLaws.HandledInTime | example/monit-4.2/control.c:209-284 | whatever a command spawns is decided by an answer about that service, asked during the command; a failed stop by the last answer of its wait |
| DependCheck.Parser.ValidateDepend | example/monit-4.2/p.y:2722-2758 | ends on every graph; comes to its end only if every way from the root was walked once and all names on it are defined, and gives up only if a name is undefined or two ways lead to one service |
| DependCheck.Parser.CheckDepend | example/monit-4.2/p.y:2640-2650 | a control file is accepted if and only if all names are defined and from no service two ways lead to the same one; the flags end reset |
| DependCheck.AcceptedIsAcyclic | example/monit-4.2/p.y:2719-2758 | in an accepted graph all names resolve and there is no loop, which is all the commands rely on |
| DependCheck.DiamondRefused | example/monit-4.2/p.y:2743-2747 | a graph without loops that is refused: one service needs two that share a prerequisite |
| DependCheck.ChainsAccepted | example/monit-4.2/p.y:2722-2758 | where every service needs at most one other, exactly the graphs without loops are accepted |
| ControlLaws.StopLaw | example/monit-4.2/control.c:240-249 | from reset flags, "stop" acts exactly once on the target and each transitive dependant, each after everything that depends on it, the target last; exactly these are unmonitored; each of them with a stop command had it run, or is a process that an answer of this command said does not run |
| ControlLaws.StartLaw | example/monit-4.2/control.c:222-238 | from reset flags, "start" first stops each transitive dependant once, dependants first, and then starts the target, its dependants and all they need, each once and after all its transitive prerequisites; each started service with a start command had it run, or is a process that an answer of this command said runs |
| ControlLaws.RestartLaw | example/monit-4.2/control.c:251-266 | "restart" stops the target last; if that stop fails nothing is started and the stopped services stay unmonitored, otherwise everything is started again in order and monitored; what the events say of the commands run is told from the answers, as for "stop" and "start" |
| ControlLaws.MonitorLaw | example/monit-4.2/control.c:268-273 | on any graph, loops included, "monitor" turns monitoring on for exactly the target and its transitive prerequisites |
| ControlLaws.UnmonitorLaw | example/monit-4.2/control.c:275-280 | "unmonitor" turns monitoring off for exactly the target and its transitive dependants |
| ControlLaws.RunEnds | example/monit-4.2/control.c:90-108 | at the end of a start or monitor run every service is monitored, at the end of a stop or unmonitor run none is, and a stop run started nothing |
| ControlLaws.CommandKeeps | example/monit-4.2/control.c:90-108 | one more command inside a run keeps: every service started at most once and after its prerequisites, stopped at most once and after its dependants, never stopped after its start; and the full account of what the run has stopped, started and left alone for its targets so far |
| ControlLaws.DependantsUntouched | example/monit-4.2/control.c:96-104 | a service a run has not started has no started dependant, so stopping its dependants undoes nothing |
| ControlLaws.RunLaw | example/monit-4.2/control.c:90-108 | over a whole run the starts and the stops each enumerate the flagged services once, ordered along all chains of dependencies, and nothing is stopped after it was started |
| ControlLaws.RunMeans | example/monit-4.2/control.c:90-108 | of a whole run: every event means what the answers to its questions say, every flagged service with a start command had it run or is a process answered to run during the run, and every stopped one with a stop command had it run or was answered not to run |
| HashBuffer.Buffered | example/monit-4.2/sha.c:224-230 | bytes may be appended to the buffer at any time without changing what the context stands for |
| HashBuffer.Flushed | example/monit-4.2/sha.c:232-240 | whole blocks of the buffer may be folded at any time without changing what the context stands for |
| HashBuffer.Direct | example/monit-4.2/sha.c:265-270 | with an empty buffer whole blocks may bypass it |
| HashBuffer.CountMoves | example/monit-4.2/sha.c:321-326 | the two-word counter follows the byte count modulo 2^64 for every piece below 2^32 bytes |
| HashBuffer.CountAddsExactly | example/monit-4.2/md5.c:279-284 | for a piece of any length, the counter is right if and only if the piece is below 2^32 bytes or its high word and the true carry add up to one modulo 2^32 |
| HashBuffer.LongPieceMiscounted | example/monit-4.2/md5.c:279-284 | one piece of 2^33 bytes is counted as 2^32 |
| HashBuffer.BitLength | example/monit-4.2/md5.c:116-119 | shifting the two words gives the low and high word of the length in bits; the joined bits do not overlap |
| HashBuffer.SamePad | example/monit-4.2/sha.c:120-120 | padding computed from the bytes still buffered (0 to 64) is the padding of the whole message |
| HashBuffer.LastBlocks | example/monit-4.2/sha.c:128-129 | folding the waiting bytes with the padding equals folding the whole padded message from the beginning |
| HashBuffer.ReversedStore | example/monit-4.2/sha.c:123-126 | a little-endian store of the swapped word writes it big-endian |
| Sha1Spec.PaddedMeans | example/monit-4.2/sha.c:111-129 | the padded message, by position and by number: the message, the byte 0x80, zeros, and eight bytes that are the length in bits modulo 2^64 as a big-endian number; its length is the least multiple of 64 with room for that |
| Md5.PaddedMeans | example/monit-4.2/md5.c:108-122 | the same, the last eight bytes being a little-endian number |
| Sha1Spec.InitMeans | example/monit-4.2/sha.c:74-84 | the five initial words are the hexadecimal digits of the standard, read as big-endian bytes |
| Sha1Spec.ConstantsMean | example/monit-4.2/sha.c:293-296 | the round constants are the square roots of 2, 3, 5 and 10 times 2^30, rounded down |
| Sha1Spec.ChoiceMeans | example/monit-4.2/sha.c:299-299 | where b is set the first function is c, elsewhere d |
| Sha1Spec.ParityMeans | example/monit-4.2/sha.c:300-300 | the second and fourth function is the sum of its words without carry |
| Sha1Spec.MajorityMeans | example/monit-4.2/sha.c:301-301 | the third function takes what b and c agree on, and d where they differ |
| Sha1Spec.WordBytesMean | example/monit-4.2/sha.c:91-101 | the digest writes every word with its highest byte first |
| Rotation.RotatedOnce | example/monit-4.2/sha.c:328-337 | rotating by one place moves the highest bit to the lowest place and every other one up |
| Rotation.RotatedFive | example/monit-4.2/sha.c:328-337 | rotating by five is rotating by one five times |
| Rotation.RotatedThirty | example/monit-4.2/sha.c:328-337 | rotating by thirty is undone by rotating by one twice |
| Md5.InitMeans | example/monit-4.2/md5.c:67-70 | the four initial words, from the bytes of RFC 1321 with the low one first |
| Md5.OutputMeans | example/monit-4.2/md5.c:81-92 | the digest is the four words, the low byte of each first |
| Sha1Block.SwappedLoad | example/monit-4.2/sha.c:344-348 | loading four bytes natively and swapping gives the big-endian word of the standard |
| Sha1Block.RoundFunctions | example/monit-4.2/sha.c:299-302 | F1 to F4 are the functions of section 5 of FIPS 180-1 for every round |
| Sha1Block.R | example/monit-4.2/sha.c:332-337 | updating two registers in place and renaming is one step of the standard, which shifts all five |
| Sha1Block.M | example/monit-4.2/sha.c:328-330 | the 16-word circular buffer yields the word W(t) of the 80-word recurrence and stays a window on it |
| Sha1Block.FiveRounds | example/monit-4.2/sha.c:350-354 | after five renamed rounds every register has its own name back |
| Sha1Block.CompressBlock | example/monit-4.2/sha.c:339-436 | one block is compressed as section 7 of FIPS 180-1 defines |
| Sha1.Context.ProcessBlock | example/monit-4.2/sha.c:309-436 | folds all whole blocks given and advances the counter |
| Sha1.Context.FlushWhole | example/monit-4.2/sha.c:232-240 | folds the whole blocks that wait and keeps the rest, never beyond the 128 bytes of the buffer |
| Sha1.Context.FillBuffer | example/monit-4.2/sha.c:224-244 | tops up a partly filled buffer; exactly 64 bytes may stay waiting |
| Sha1.Context.ProcessCopied | example/monit-4.2/sha.c:257-263 | the unaligned path: block by block through the buffer, leaving 1 to 64 bytes over |
| Sha1.Context.ProcessBytes | example/monit-4.2/sha.c:220-288 | after any call the context stands for the message so far, whichever path alignment chose, and at most 64 bytes wait |
| Sha1.Context.Finish | example/monit-4.2/sha.c:109-132 | returns the digest of the message the context stands for |
| Sha1.DigestPieces | example/monit-4.2/sha.c:205-217 | for every way to cut a message into pieces below 2^32 bytes and every alignment of each piece the result is the FIPS 180-1 digest of the whole message |
| Sha1.DigestStream | example/monit-4.2/sha.c:138-198 | for every pattern of partial reads, a stream read without error gives the digest of its content, whatever its length; a failure is reported only for a failed read |
| Md5.Context.ProcessBlock | example/monit-4.2/md5.c:265-420 | folds the block function over all whole blocks given and advances the counter |
| Md5.Context.FlushWhole | example/monit-4.2/md5.c:222-229 | folds the whole blocks that wait and keeps the rest |
| Md5.Context.ProcessBytes | example/monit-4.2/md5.c:207-249 | after any call the context stands for the message so far; a full block may stay in the buffer |
| Md5.Context.Finish | example/monit-4.2/md5.c:100-125 | returns the digest of the message padded as in sections 3.1 and 3.2 of RFC 1321 |
| Md5.DigestPieces | example/monit-4.2/md5.c:188-203 | for every block function and every way to cut a message into pieces below 2^32 bytes the result is the fold over the padded whole message |
| TermBags.CountTerms | src/input/block/InputBlock.java:60-74 | the term list has no term twice, no zero frequency, and stands for the multiset of the tokens |
| TermBags.BagPermutation | src/input/block/InputBlock.java:142-143 | sorting a term list does not change the bag it stands for |
| CloneModel.CloneUnordered | src/detection/detection/Clone.java:13-52 | a pair is written the same way whichever of its blocks finds it |
| CloneModel.CloneLines | src/detection/detection/Clone.java:13-52 | a clone has the files and lines of its two blocks, the smaller file, start and end first |
| CloneModel.SimilarIsThreshold | txl/HeuristicCloneDetector.java:71-78 | the shared tokens reach the ratio of the larger block exactly when they reach the whole number the program compares with |
| CloneModel.RoundsUp | txl/HeuristicCloneDetector.java:71-71 | that number is the smallest whole one not below the product |
| CloneModel.ReportableIsSimilar | txl/HeuristicCloneDetector.java:71-78 | with a threshold of at least one token, what is reported is what is similar |
| CloneModel.NothingSharedSimilar | txl/HeuristicCloneDetector.java:26-39 | with a ratio of zero two blocks without a common token are similar and not reported |
| CloneModel.OverlapMeaning | src/detection/block/Block.java:42-51 | for blocks of at least one line, the three cases hold exactly when the blocks share a line of the same file |
| CloneModel.BeforeTotal | src/detection/GTF/GTFTermFreqComparator.java:20-27 | the comparator is a strict total order of terms |
| CloneModel.BeforeTransitive | src/detection/GTF/GTFTermFreqComparator.java:20-27 | the comparator is transitive |
| CloneModel.RarerFirst | src/detection/GTF/GTFTermFreqComparator.java:20-27 | a rarer term is in front of a more frequent one, and equally frequent ones are ordered by their texts |
| CloneModel.LexMeans | src/detection/GTF/GTFTermFreqComparator.java:20-27 | of two texts the one in front ends before they differ or has the smaller letter where they differ first |
| CloneModel.PrefixIsLeast | src/detection/prefixer/MyPrefixer.java:18-34 | behind the prefix stand fewer tokens than have to be shared; with one token more there would be enough |
| CloneModel.TooLate | src/detection/prefixer/MyPrefixer.java:20-32 | if a block shares nothing before a term outside its prefix, fewer tokens are shared than its own threshold |
| CloneModel.PrefixesMeet | src/detection/prefixer/MyPrefixer.java:18-34 | two blocks that share a token and are similar enough have a common prefix term: the first they share in the global order |
| CloneDetection.TermCounts.Add | src/detection/GTF/GTFHashMap.java:33-37 | adds to the count of one term and no other |
| CloneDetection.BuildTermCounts | src/detection/workers/GTFBuilder.java:28-58 | the frequency of every term is its count over all blocks, approved or not |
| CloneDetection.SortTerms | src/input/block/InputBlock.java:142-143 | the result is a permutation in strictly ascending comparator order |
| CloneDetection.CountAndMap | src/detection/block/Block.java:31-39 | token count and map agree with the bag of the list |
| CloneDetection.MarkPrefix | src/detection/prefixer/MyPrefixer.java:25-31 | exactly the terms that begin within the prefix length are prefix terms |
| CloneDetection.Prepare | src/detection/workers/BlockIndexer.java:62-72 | a prepared block has the tokens of its input, sorted, with its prefix marked |
| CloneDetection.Index.Put | src/detection/index/ConcurrentHashMapIndex.java:20-24 | the index holds every indexed block under each of its prefix terms and nothing else |
| CloneDetection.Scan | txl/HeuristicCloneDetector.java:95-130 | the early exits answer exactly whether the shared tokens, counted with multiplicity, reach the threshold |
| CloneDetection.IsClone | txl/HeuristicCloneDetector.java:50-132 | true if and only if the query's id is not smaller, the blocks do not overlap, and the sum of smaller frequencies reaches ceil(sim * larger size); the branch marked as a bug needs two empty blocks |
| CloneDetection.Candidates | txl/HeuristicCloneDetector.java:26-39 | stopping at the first term outside the prefix finds exactly the indexed blocks with a common prefix term |
| CloneDetection.DetectClones | txl/HeuristicCloneDetector.java:22-48 | reports each indexed block with a common prefix term that is a clone of the query, each once |
| CloneDetection.DetectsExactly | txl/HeuristicCloneDetector.java:26-45 | prefix filtering is complete: a clone with at least one shared token is always a candidate, for every similarity ratio |
| ClonePipeline.IndexBlocks | src/detection/workers/BlockIndexer.java:45-79 | exactly the approved inputs of a range are indexed and queued, one block each |
| ClonePipeline.ApprovesMeans | src/detection/requirements/SizeRequirements.java:30-36 | a block is approved unless its tokens or lines are fewer than the lower bounds or, for bounds that are not zero, more than the upper ones |
| ClonePipeline.Round | src/detection/logic/SelfPartitionedCloneDetection.java:118-261 | one index, queried by its own blocks and all later ones, finds exactly the wanted pairs whose candidate it holds, each once |
| ClonePipeline.Detect | src/detection/logic/SelfCloneDetection.java:60-240 | a run reports: every wanted pair of inputs (approved, apart, similar) is written exactly once, by the block with the larger id, and nothing else is written |
| ClonePipeline.DetectPartitioned | src/detection/logic/SelfPartitionedCloneDetection.java:74-263 | for every partition size and every order of ids, each wanted pair is written exactly once if its query stands in or after the candidate's partition, and not at all otherwise; each partition has its own term order |
| ClonePipeline.SameReports | src/detection/logic/SelfCloneDetection.java:60-240 | any two runs that report the wanted pairs write the same clones, counted with multiplicity |
| ClonePipeline.PartitionsLoseNothing | src/input/worker/BlockConsumer_BlockWriter.java:43-44 | with ids in file order, what a run with partitions of any size writes is a report of all wanted pairs, as from one index |
| ClonePipeline.ReportsExactly | src/detection/logic/SelfPartitionedCloneDetection.java:212-228 | what a run with partitions writes is a report of all wanted pairs if and only if no wanted pair has its query in front of its candidate's partition |
| ClonePipeline.PartitionsLose | src/detection/logic/SelfPartitionedCloneDetection.java:212-228 | for given ids and a given size, every run over any content reports all wanted pairs if and only if no block has a larger id than a block of a later partition |
| ClonePipeline.AscendingNeverLoses | src/input/worker/BlockConsumer_BlockWriter.java:43-44 | that holds for every size if and only if ids ascend with position |
| ClonePipeline.TwoBlocksLost | src/detection/logic/SelfPartitionedCloneDetection.java:212-228 | two alike blocks with ids 1 and 0 in partitions of one: nothing is written and a pair is lost |
| ProcessTree.FindProcess | example/monit-4.2/process.c:206-221 | finds the first entry with a pid, or none; pid 0 is never found |
| ProcessTree.ConnectChild | example/monit-4.2/process/process_common.c:208-238 | appends the child to its parent's list, or refuses and changes nothing when either pid is 0 |
| ProcessTree.FindAfter | example/monit-4.2/process.c:171-190 | what a parent lookup finds while the table is half linked, told of the raw table |
| ProcessTree.LinkTable | example/monit-4.2/process.c:171-190 | every entry ends with the parent, children and pid that the raw table determines |
| ProcessTree.LinkedOnce | example/monit-4.2/process.c:171-190 | an entry is a root, or invalidated, or stands exactly once in the child list of its own parent and in no other list |
| ProcessTree.RootOnNoLoop | example/monit-4.2/process.c:173-174 | a process without a parent is on no loop |
| ProcessTree.SiblingsDisjoint | example/monit-4.2/process/process_common.c:263-267 | children of one parent have disjoint subtrees |
| ProcessTree.UpToStep | example/monit-4.2/process/process_common.c:263-267 | each round of the children loop adds one more disjoint subtree |
| ProcessTree.FillingStep | example/monit-4.2/process/process_common.c:263-267 | a child passing its totals up keeps the parent's partial totals right |
| ProcessTree.FillProcessTree | example/monit-4.2/process/process_common.c:246-277 | ends on every table, by the visited flags; below a live entry on no loop every entry has the number of its proper descendants and the memory of its subtree, and only the parent's totals change outside |
| ProcessTree.InitProcessTree | example/monit-4.2/process.c:164-196 | every process below pid 1 ends with right totals unless pid 1 is on a loop, whatever loops there are elsewhere; it aborts exactly when a nonempty table has no live pid 1 |
| Calendar.IsLeapMeans | example/monit-4.2/external/strftime.c:125-126 | the macro with remainders that may be negative is the Gregorian rule for all years |
| Calendar.LeapDaysStep | example/monit-4.2/external/strftime.c:275-282 | the shift and the corrected quotient gain one day exactly over a leap year, for years before 1900 as well |
| Calendar.DaysBetweenClosed | example/monit-4.2/external/strftime.c:275-285 | the closed form equals the count of days year by year, forwards and backwards |
| Calendar.TmDiffRight | example/monit-4.2/external/strftime.c:267-288 | `tm_diff` is the difference of two moments counted in seconds from any origin |
| Calendar.IsoWeekDaysRight | example/monit-4.2/external/strftime.c:297-314 | counts days since a Monday at yday -3 to 3; the operand of the remainder is never negative |
| Calendar.ThursdayMeans | example/monit-4.2/external/strftime.c:297-314 | the Thursday of a week is a day of weekday 4 at most three days away |
| Calendar.IsoWeekRight | example/monit-4.2/external/strftime.c:896-929 | the week belongs to the year in which its Thursday falls, its number counts that year's Thursdays so far, and it is 1 to 53 |
| Calendar.IsoYearUnique | example/monit-4.2/external/strftime.c:897-917 | no other year contains that Thursday |
| Calendar.TwoDigitYear | example/monit-4.2/external/strftime.c:921-922 | `%g` is the year modulo 100 in 0 to 99, for negative years as well |
| StemmerSpec.OneStem | src/util/Stemmer.java:359-363 | the rules give every word one stem, however the suffixes are tried |
| StemmerSpec.MeasureBound | src/util/Stemmer.java:131-154 | a measure of m needs 2m letters, which is why no cursor leaves the word |
| StemmerMeaning.LetterMeans | src/util/Stemmer.java:112-120 | a letter is a consonant unless it is a, e, i, o or u, or a y with a consonant in front of it |
| StemmerMeaning.PluralSses | src/util/Stemmer.java:233-239 | -sses loses two letters |
| StemmerMeaning.PluralIes | src/util/Stemmer.java:233-239 | -ies loses two letters |
| StemmerMeaning.PluralSs | src/util/Stemmer.java:233-239 | -ss stays |
| StemmerMeaning.PluralS | src/util/Stemmer.java:233-239 | any other final s goes |
| StemmerMeaning.PluralOther | src/util/Stemmer.java:233-239 | a word without a final s stays |
| StemmerMeaning.PastMeans | src/util/Stemmer.java:240-252 | a stem with a vowel loses -ing, and -ed unless the word ends with -eed; then -at, -bl and -iz get an e, a double consonant becomes single except for l, s and z, and a short stem of measure one gets an e |
| StemmerMeaning.PastStays | src/util/Stemmer.java:240-252 | without a vowel in front -ing and -ed stay; -eed loses its d exactly after a positive measure |
| StemmerMeaning.FinalYMeans | src/util/Stemmer.java:257-257 | a final y becomes i exactly after a stem with a vowel |
| StemmerMeaning.RowsListed | src/util/Stemmer.java:263-341 | the tables of steps 3 to 5 have the listed rows and no others |
| StemmerMeaning.ThirdMeans | src/util/Stemmer.java:263-293 | step 3, row by row, for every stem the row is not a part of a longer one for: replaced after a positive measure, otherwise kept |
| StemmerMeaning.ThirdMeansToo | src/util/Stemmer.java:263-293 | the rows with -ation and its longer form -ization, -ator and -alism |
| StemmerMeaning.ThirdMeansLast | src/util/Stemmer.java:263-293 | the remaining rows of step 3 |
| StemmerMeaning.FourthMeans | src/util/Stemmer.java:297-310 | the same for every row of step 4 |
| StemmerMeaning.FifthMeans | src/util/Stemmer.java:314-341 | step 5, row by row: dropped behind a measure above one, otherwise kept |
| StemmerMeaning.FifthMeansToo | src/util/Stemmer.java:314-341 | the remaining rows of step 5 |
| StemmerMeaning.IonMeans | src/util/Stemmer.java:331-332 | -ion goes after s or t and stays after any other letter |
| StemmerMeaning.FinalEMeans | src/util/Stemmer.java:345-350 | a final e goes after a measure above one, and after a measure of one unless the stem ends short |
| StemmerMeaning.FinalLMeans | src/util/Stemmer.java:351-351 | one l of a final ll goes in a word of measure above one |
| StemmerExamples.Vowels | src/util/Stemmer.java:112-154 | measures of words with every vowel letter, and with y in three places |
| StemmerExamples.ShortEnds | src/util/Stemmer.java:171-186 | the short words of the comment: cav, lov, hop and crim end short, snow, box and tray do not |
| StemmerExamples.Plurals | src/util/Stemmer.java:207-231 | the plurals of the comment become what it says |
| StemmerExamples.Feed | src/util/Stemmer.java:207-231 | feed stays and agreed becomes agree |
| StemmerExamples.Disabled | src/util/Stemmer.java:207-231 | disabled becomes disable |
| StemmerExamples.Matting | src/util/Stemmer.java:207-231 | matting becomes mat |
| StemmerExamples.Milling | src/util/Stemmer.java:207-231 | milling becomes mill and messing mess |
| StemmerExamples.PluralStems | src/util/Stemmer.java:359-363 | the stems of the plurals of the comment after all steps |
| StemmerExamples.FeedStems | src/util/Stemmer.java:359-363 | the stems of feed and agreed |
| StemmerExamples.MatStems | src/util/Stemmer.java:359-363 | the stems of matting and mating |
| StemmerExamples.MeetStems | src/util/Stemmer.java:359-363 | the stems of meeting, meetings and messing |
| StemmerExamples.MillStems | src/util/Stemmer.java:359-363 | milling is stemmed to mill, keeping its double l |
| StemmerExamples.DisabledStem | src/util/Stemmer.java:359-363 | disabled is stemmed to disabl |
| Stemmer.SwitchComplete | src/util/Stemmer.java:263-341 | the switch letters of steps 3 to 5 miss no suffix of the tables |
| Stemmer.FoundLongest | src/util/Stemmer.java:263-341 | trying the suffixes in the order of the code finds the longest one |
| Stemmer.Stemmer.Add | src/util/Stemmer.java:67-75 | appends one letter, growing the buffer without losing any |
| Stemmer.Stemmer.AddAll | src/util/Stemmer.java:82-91 | appends letters, growing the buffer without losing any |
| Stemmer.Stemmer.ConsAt | src/util/Stemmer.java:112-120 | y counts as a consonant at the beginning and after a vowel |
| Stemmer.Stemmer.M | src/util/Stemmer.java:131-154 | the nested loops count the vowel-to-consonant turns up to j |
| Stemmer.Stemmer.VowelInStem | src/util/Stemmer.java:158-161 | whether the stem up to j has a vowel |
| Stemmer.Stemmer.DoubleC | src/util/Stemmer.java:165-169 | whether the letters up to a position end with a double consonant |
| Stemmer.Stemmer.Cvc | src/util/Stemmer.java:180-186 | whether they end consonant, vowel, consonant, the last not w, x or y |
| Stemmer.Stemmer.EndsWith | src/util/Stemmer.java:188-196 | answers whether the word has a suffix; moves j in front of it, or leaves j alone |
| Stemmer.Stemmer.SetTo | src/util/Stemmer.java:200-205 | the word becomes the letters up to j and the new suffix |
| Stemmer.Stemmer.Step1 | src/util/Stemmer.java:233-253 | plurals, then -eed, -ed and -ing with the tidying that follows, in place |
| Stemmer.Stemmer.Step2 | src/util/Stemmer.java:257-257 | a final y becomes i after a vowel |
| Stemmer.Stemmer.Step3 | src/util/Stemmer.java:263-293 | replaces the longest suffix of its table if the stem has a positive measure |
| Stemmer.Stemmer.Step4 | src/util/Stemmer.java:297-310 | the same for its own table |
| Stemmer.Stemmer.Step5 | src/util/Stemmer.java:314-341 | drops the longest suffix if the measure exceeds one and -ion follows s or t |
| Stemmer.Stemmer.Step6 | src/util/Stemmer.java:345-352 | drops a final e and one l of a final ll; the measure taken before the e went still serves |
| Stemmer.Stemmer.Stem | src/util/Stemmer.java:359-363 | with every buffer access in bounds, a word of n letters is replaced by its stem, of 1 to n letters |
| ReplaceString.CountWords | example/monit-4.2/util.c:341-352 | counts the matches, overlapping ones included; the search leaves the text exactly for an empty word |
| ReplaceString.MatchMeans | example/monit-4.2/util.c:319-322 | a match at a position means that the text is what stands before it, the word, and a rest |
| ReplaceString.CountSuffices | example/monit-4.2/util.c:298-306 | no more replacements are made than matches were counted |
| ReplaceString.RoomSuffices | example/monit-4.2/util.c:299-311 | the allocation is large enough for the result |
| ReplaceString.StrCat | example/monit-4.2/util.c:319-326 | appending writes inside the buffer and nothing before its end |
| ReplaceString.Replace | example/monit-4.2/util.c:291-333 | returns greedy left-to-right replacement without overrunning its buffer, and stays inside the text exactly for a search text that is not empty |
| ReplaceString.NormalizedRight | example/monit-4.2/alert.c:242-251 | the two replacements put a return before every line feed, and repeating them changes nothing |
| ReplaceString.Mail.ReplaceBareLinefeed | example/monit-4.2/alert.c:242-251 | both mail fields are normalised, a missing one stays missing |
| Base64.EncodedLength | example/monit-4.2/http/base64.c:77-77 | text and terminator fit into size*4/3+4, with nothing to spare when size mod 3 is 1 |
| Base64.EncodeBase64 | example/monit-4.2/http/base64.c:66-117 | returns the encoding, a size of zero meaning the text up to its first zero, inside the allocation |
| Base64.LetterMeans | example/monit-4.2/http/base64.c:212-221 | six bits are written as their letter in table 1 of RFC 4648 |
| Base64.KeptMeans | example/monit-4.2/http/base64.c:242-254 | the characters the decoder keeps are the letters of the table and the padding |
| Base64.GroupMeans | example/monit-4.2/http/base64.c:93-111 | a group spells its bytes as one number of 24 bits, missing bytes counting as zero and their letters being padding |
| Base64.GroupsInOrder | example/monit-4.2/http/base64.c:83-113 | the four characters from 4k on spell the bytes from 3k on |
| Base64.GroupRoundTrip | example/monit-4.2/http/base64.c:93-111 | one to three bytes become four characters of the alphabet that decode to the same bytes |
| Base64.DecodeBase64 | example/monit-4.2/http/base64.c:129-203 | ignores other characters and decodes group by group up to the first zero |
| Base64.RoundTrip | example/monit-4.2/http/base64.c:66-203 | what the decoder makes of an encoding is the data again, whatever characters outside the alphabet, but no terminator, were inserted |
| Base64.PlainRoundTrip | example/monit-4.2/http/base64.c:66-203 | the encoding itself has no terminator inside and decodes to the data |
| Base64.CutAtZero | example/monit-4.2/http/base64.c:139-147 | a C string ends at its first zero: with one in front of an encoding nothing is left to decode |
| UrlCodec.HexRoundTrip | example/monit-4.2/util.c:1514-1524 | converting the two hex digits of a byte gives the byte back, with signed characters |
| UrlCodec.HexMeans | example/monit-4.2/util.c:1514-1524 | the sixteen hex digits: capitals are written, capitals and small letters are read |
| UrlCodec.XdigitMeans | example/monit-4.2/util.c:1488-1509 | a character is accepted in an escape exactly if it is one of them |
| UrlCodec.EscapeMeans | example/monit-4.2/util.c:1233-1238 | an escape is read as the number its two digits write in base 16 |
| UrlCodec.ListedMeans | example/monit-4.2/util.c:1488-1509 | the characters escaped one by one are those of the list |
| UrlCodec.EncodedSafe | example/monit-4.2/util.c:1488-1509 | an encoded text has none of them left, and no other unsafe character |
| UrlCodec.SafeKept | example/monit-4.2/util.c:1488-1509 | a character that is safe is written as itself |
| UrlCodec.UrlEncode | example/monit-4.2/util.c:1196-1218 | writes the encoding inside its allocation of three bytes a character |
| UrlCodec.UrlDecode | example/monit-4.2/util.c:1227-1241 | decodes in place, the result no longer than the text; it stays inside the text exactly when all positions the scan reads are |
| UrlCodec.ReadsInside | example/monit-4.2/util.c:1233-1238 | the scan reads only the text and its terminator if and only if no escape is cut off by the end |
| UrlCodec.DecodeReads | example/monit-4.2/util.c:1227-1241 | the same told of the text the caller passes, before its pluses become spaces |
| UrlCodec.CutEscape | example/monit-4.2/util.c:1233-1238 | a text of one percent sign is read past its terminator |
| UrlCodec.EncodedResolved | example/monit-4.2/util.c:1196-1241 | decoding an encoded text always resolves exactly the escapes that were in the original and turns each plus into a space; an encoded text never has a cut escape |
| UrlCodec.RoundTrip | example/monit-4.2/util.c:1196-1241 | decoding an encoded text gives it back if and only if it has no plus and no escape |
| UrlCodec.PlusLost | example/monit-4.2/util.c:1196-1241 | a plus comes back as a space |
| UrlCodec.EncodedFixed | example/monit-4.2/util.c:1488-1509 | encoding an encoded text changes nothing |
| Checksum.FoldOnce | example/monit-4.2/net.c:799-800 | folding ends, keeps the sum modulo 65535, and makes nothing zero |
| Checksum.ChecksumIp | example/monit-4.2/net.c:785-804 | sum and checksum add up to a multiple of 65535, and all ones comes only from a zero sum |
| Checksum.StoredVerifies | example/monit-4.2/net.c:785-804 | after the checksum is stored in its zeroed, aligned field, recomputing gives zero |
| Checksum.Example | example/monit-4.2/net.c:785-804 | the example of section 3 of RFC 1071 |
| QueryString.GetNextToken | example/monit-4.2/http/processor.c:1042-1066 | the scanner's token, text and cursor are those of the specification |
| QueryString.TokenMeans | example/monit-4.2/http/processor.c:1042-1066 | what one call takes off any text: a key stands in front of an `=` that is left, a value behind one and up to the next `&` or the end, and without a token there is no `=` any more |
| QueryString.ParseParameters | example/monit-4.2/http/processor.c:1001-1036 | parses to the specified list, or fails on a value without a key |
| QueryString.TokenCarried | example/monit-4.2/http/processor.c:1046-1062 | which keys and values the scanner can deliver at all |
| QueryString.RoundTrip | example/monit-4.2/http/processor.c:1001-1066 | parsing printed parameters gives the reversed list if and only if every name is free of `=` (or is one `=`) and not empty, and no value has `&` or begins with `=` |
| QueryString.NamelessFails | example/monit-4.2/http/processor.c:1012-1017 | a parameter without a name is printed to a text that cannot be parsed |
| Resources.CounterIsExcess | example/monit-4.2/validate.c:814-818 | over any run the counter is the largest excess of matching over other checks in any stretch up to now since the last reset, and the flag tells that the latest check failed |
| Resources.FailsExactly | example/monit-4.2/validate.c:814-826 | a check fails exactly when that excess reaches max_cycle, and is acted on exactly when the check before it did not fail |
| Resources.StaysBelow | example/monit-4.2/validate.c:188-203 | between polls the counter stays in 0 to max_cycle - 1 |
| Resources.ActedApart | example/monit-4.2/validate.c:189-203 | between two failures that are acted on some check passes |
| Resources.FailuresApart | example/monit-4.2/validate.c:188-203 | from one failing check to the next at least max_cycle checks match |
| Resources.EveryFailureActed | example/monit-4.2/validate.c:189-203 | every failing check is acted on if and only if max_cycle is at least 2 |
| Resources.SecondFailureIgnored | example/monit-4.2/validate.c:189-203 | with max_cycle 1 the second of two matching checks fails and is not acted on |
| Resources.OperatorsMean | example/monit-4.2/validate.c:1213-1239 | greater and less are opposite and strict, equal and not equal exclude each other, an unknown operator never holds |
| Resources.FiguresMean | example/monit-4.2/validate.c:689-812 | each resource is compared by its own reading and its own limit |
| Resources.ActionsMean | example/monit-4.2/validate.c:527-563 | what each action posts, and that exactly stop, restart and unmonitor end the checks |
| Resources.Resource.Check | example/monit-4.2/validate.c:689-826 | moves the counter by at most one and fails exactly at max_cycle; an unknown resource never matches |
| Resources.Resource.Poll | example/monit-4.2/validate.c:188-203 | takes the action exactly when the history of the resource says so |
| Resources.ResetAll | example/monit-4.2/validate.c:672-682 | resets every counter and none of the flags |
| Resources.CheckProcess | example/monit-4.2/validate.c:188-203 | checks the resources in order, posts for each action taken, and at the first fatal one stops and resets all counters, those not checked included |
| Highlighter.KeptSeparate | example/monoosc/SyntaxHighlighting/Highlightor.cs:386-412 | the remaining matches are in order and each ends before the next starts |
| Highlighter.SortedMeans | example/monoosc/SyntaxHighlighting/Highlightor.cs:500-531 | sorted by place, and by length at one place |
| Highlighter.KeptMeans | example/monoosc/SyntaxHighlighting/Highlightor.cs:386-412 | a match goes exactly when the position it starts at is taken by an earlier match that stays |
| Highlighter.SeparateKept | example/monoosc/SyntaxHighlighting/Highlightor.cs:536-540 | a list whose matches do not overlap is left unchanged, also where one ends and the next begins |
| Highlighter.GoneOverlaps | example/monoosc/SyntaxHighlighting/Highlightor.cs:386-412 | every dropped match that is not empty shares a position of the text with a remaining one |
| Highlighter.TakenOnce | example/monoosc/SyntaxHighlighting/Highlightor.cs:386-412 | no position is taken by two remaining matches |
| Highlighter.GoneInsideOne | example/monoosc/SyntaxHighlighting/Highlightor.cs:392-405 | every dropped match starts inside exactly one remaining match |
| Highlighter.ShorterStays | example/monoosc/SyntaxHighlighting/Highlightor.cs:500-536 | of two matches at one place the shorter wins, although the longer does not lie inside it |
| Highlighter.OnlyInnerExactly | example/monoosc/SyntaxHighlighting/Highlightor.cs:381-405 | every dropped match lies inside the remaining one it starts in if and only if no match of the list starts inside an earlier one that itself starts in none before it, and ends behind that one |
| Highlighter.NoneSticksOut | example/monoosc/SyntaxHighlighting/Highlightor.cs:381-405 | so it is in particular when no match at all starts inside an earlier one and ends behind it |
| Highlighter.ListDoomed | example/monoosc/SyntaxHighlighting/Highlightor.cs:388-406 | the delete list is strictly ascending and holds exactly the matches to drop |
| Highlighter.Highlightor.CleanMatches | example/monoosc/SyntaxHighlighting/Highlightor.cs:386-412 | removing from the end of the list leaves exactly the greedy selection |
| Highlighter.TextKept | example/monoosc/SyntaxHighlighting/Highlightor.cs:117-152 | the coloured text is the code if and only if no remaining match has several lines |
| Highlighter.CutUnbroken | example/monoosc/SyntaxHighlighting/Highlightor.cs:122-145 | no coloured piece contains a line break |
| Highlighter.LetterColoured | example/monoosc/SyntaxHighlighting/Highlightor.cs:117-152 | every letter of the code stands in the coloured text, moved by one line break for each match of several lines in front of it, and has the colour of the match it is in, none outside the matches, and none if it is a line break |
| Highlighter.PaintedIsRendered | example/monoosc/SyntaxHighlighting/Highlightor.cs:117-152 | the letters with their colours are the letters of the coloured text |
| Highlighter.Highlightor.HighLight | example/monoosc/SyntaxHighlighting/Highlightor.cs:104-152 | cleaning and cutting together never slice out of bounds and give those pieces; the text is the code if and only if no match of the given list that stays has several lines |
| Highlighter.BreakAdded | example/monoosc/SyntaxHighlighting/Highlightor.cs:122-138 | a match that is a line break gets another one behind it |

## Left out

- Services and process entries are positions in a list or table instead of pointers; aliasing and freeing of memory are not modelled.
- `do_stop` and `do_unmonitor` also clear the process information block; it is not part of the model.
- The thread that waits for a started process only reports a failure; locks, logging, signals and the path over the HTTP daemon are not part of the model.
- `order_depend` of the parser is not modelled; the service list may be in any order. That names are unique is a premise of the parser's check.
- Control.Monit.ControlAll: the group command differs only in a filter on names and is not modelled.
- The 64 steps of the MD5 block function are a parameter of the MD5 model; its claims hold for every block function.
- Sha1Block.CompressBlock: the 80 unrolled rounds are sixteen repetitions of five, after which the register names repeat.
- The `|` that joins the two halves of the bit length is addition; the halves are proved not to overlap.
- `md5_stream`, `md5_crypt` and the reading of results in other byte orders.
- The detector's threads and queues: the workers run one after another here. Blocks are values, so sorting is not in place.
- The similarity ratio is an exact real number, not a double.
- The document-frequency count, the pre-sorted variants and the query modes of the detector.
- The printing, the empty exception handlers and the counting loop in the copy of the detector under `txl/`, which do not affect its result.
- Calendar.TmDiffRight: integers are unbounded; overflow of `int` is not modelled.
- The formatting loop of `strftime` and its other conversions.
- ReplaceString.Replace: the source text is cut by zeros written into it while it is scanned; the model keeps the text and a position. For an empty search text the result is only that the search leaves the text.
- UrlCodec.UrlDecode: for a text that ends inside an escape the result is only that the scan leaves the text; what stands behind it is not modelled.
- `handle_string_escapes`, `ltrim` and `rtrim`.
- Base64.DecodeBase64: the destination is a sequence, so its size is not checked.
- Checksum.ChecksumIp: a little-endian machine, and sums that fit the type.
- QueryString.ParseParameters: an error and an empty list are told apart, which the null pointer of the original does not do; freeing is not modelled.
- Resources.CheckProcess: `event_flag`, which the event handler clears, the report texts and the other checks of `check_process` are not modelled; readings are numbers that fit `int`.
- `check_timeout` and `check_skip`.
- Highlighter.Highlightor.HighLight: matching, the library's sort, HTML encoding and the indentation of lines are not modelled; the matches are given in sorted order and inside the code.
