# HelixRouter: a verified model of its algorithmic core

This project models the parts of HelixRouter that are algorithms rather than plumbing, and
proves what they promise, for all inputs, all runs and all interleavings.

| file | models |
|---|---|
| `Lz77.dfy` | the sliding-window coder: match search, five-byte tokens, narrowing casts, decoder |
| `Dictionary.dfy` | sequence counting, choice of entries, greedy coding with escapes, decoder |
| `RunLength.dfy`, `CompressionEngine.dfy`, `Formats.dfy` | run-length coding, the dispatcher over all coders, and the formats on concrete bytes |
| `Digraph.dfy` | paths, reachability, cycles and topological orders of a finite graph |
| `JobDag.dfy`, `DagExecutor.dfy` | the job DAG: insertion with rollback, depth-first cycle search, Kahn's algorithm, wave executor |
| `Services.dfy`, `ServiceOrder.dfy`, `DependencyGraph.dfy`, `Lexicographic.dfy` | the service graph: failure propagation, impact radius, critical path, recovery order |
| `HashMix.dfy`, `HashAnswers.dfy`, `Sieve.dfy` | the hash kernel with known answers, and the prime-count kernel |
| `LoadTrend.dfy`, `DynamicAutoscaler.dfy` | the ring buffer and least-squares fit; the cooldown state machine |
| `ConnectionPool.dfy` | the connection pool and its callers |
| `Bulkhead.dfy` | the bulkhead as interleaved atomic steps |

## How the source is represented

- Vectors that grow are `seq` variables of methods; hash maps are `map`s, and iterating one
  picks keys in an arbitrary order, so every result holds for every iteration order.
- Bytes and narrow integers are newtypes with the casts written out. 64-bit words are bounded
  integers; wrapping multiplication, exclusive or, shifts and rotation are defined on them.
  `usize` sums and the 64-bit counters of the pool are unbounded.
- A panic of the LZ77 decoder is the value `None`. The router answers jobs by an arbitrary
  function to optional outputs; what it is handed and what is taken back is kept in a log.
  Clock readings are arbitrary.
- The laws of the coders, of the recovery order and of the load samples are stated over inputs
  and outputs, apart from the functions that specify the methods.
- A run of callers or of scaling decisions is a sequence of states related step by step; a
  method plays it on the object, and lemmas speak of every such run.
- Long functions of the source are split into a method and the steps of its inner loops; the
  two Kahn loops of the service graph, which differ only in the edges they count and in
  sorting, share `KahnOrder`.
- `hide` statements only keep definitions out of a proof that does not need them.

## What the proofs show about the code

- **LZ77** loses no byte on any input exactly when `(window <= 65535 or lookahead < 2) and
  min(window, lookahead) <= 255`. Every other setting is shown to corrupt one of two concrete
  inputs: 1024 zeros (the length cast drops high bits) or a pair of bytes repeated 65536
  positions later (the offset cast yields 0).
- **LZ77 references** start at the first longest occurrence, but one that was shortened to leave
  a following byte need not start at the first occurrence of its own length.
- **Repeated DAG edges**: `add_edge` accepts the same edge twice, after which the graph is
  still acyclic but `execute` reports a cycle. It succeeds exactly on duplicate-free lists.
- **Dropped jobs**: the documentation of `execute` (src/dag.rs:344-346) says a dropped job
  fails the execution. The code completes the node with no outputs and counts it, so the
  promise is kept exactly when the router drops no job of the graph.
- **Recovery order**: documented as dependencies first (src/dependency_graph.rs:312). The code
  puts the `from` of an edge before its `to`; `DependenciesFirstExactly` says when the
  documented order is met all the same.
- **Unregistered services**: an edge from a service that was never registered keeps its target
  out of the topological order, so the critical path can miss chains and the recovery order
  falls back to byte order. The results are stated for the services this cannot affect (the
  *grounded* ones), on any graph, and then for graphs where that is every service. The critical
  path is a longest chain of registered services exactly when every such chain is matched in
  length by one through grounded services. The recovery order puts every `from` before its `to`
  exactly when edges that leave services that are not grounded lead to larger ids; ghost -> z
  and z -> a reverse the order of z and a.
- **Where the critical path starts**: documented as a service without incoming hard edges
  (src/dependency_graph.rs:182-183). This is so on every run exactly when some edge leaves a
  grounded service or all services are such roots; otherwise one arbitrary service is returned.
- **Propagating twice** returns exactly the impacted ids that are not registered; nothing when
  every source of a hard edge is registered.
- **Health checks** find nothing at all while callers release only what they hold: a slot that
  is not already unhealthy then has no errors on record.
- **Signed deltas** stand for the intended change exactly for counts below 2^31, and for
  2^31 on the way down when overflow is not checked.
- **Releasing what one does not hold** puts the pool's books out of order exactly when the pool
  still has the connection and another caller holds it; it can then go to two callers at once.
- **Ring buffer**: the documented bound holds exactly for a positive capacity.
- **Bulkhead queue limit**: the check and the increment are separate steps, so the limit holds
  in every interleaving exactly when no queue is allowed or the permits and the queue have room
  for every call.

## Model

| member | source | states |
|---|---|---|
| Lz77.FindLongestMatch | src/compression.rs:199-218 | the search returns the truncated offset and the length of the first longest non-overlapping match in the window and lookahead |
| Lz77.Best | src/compression.rs:199-218 | the match a position gets: no match in range is longer, and no earlier start has one as long |
| Lz77.BestStep | src/compression.rs:206-217 | comparing with `>` keeps the earliest of the longest matches |
| Lz77.BestIsUnique | src/compression.rs:206-217 | that match is determined by the data |
| Lz77.Lz77Compress | src/compression.rs:186-235 | the output is the rendering of the greedy parse, and obeys the greedy law |
| Lz77.CompressedIsGreedy | src/compression.rs:199-235 | the tokens encode, up to the two casts, choices that cover the input: at its position a reference is the first longest occurrence, one byte shorter if that would reach the end, and a literal stands where no occurrence of two bytes leaves a following byte |
| Lz77.GreedyCodeIsUnique | src/compression.rs:199-235 | the greedy law leaves one output |
| Lz77.SafeTokensAreGreedy | src/compression.rs:220-232 | for safe parameters the tokens alone say so: with positions added up from their lengths, offset and length are those of a longest candidate and the next byte is the one after it |
| Lz77.ShortenedStartsLater | src/compression.rs:220-222 | a shortened reference need not start at the first candidate of its length |
| Lz77.Compressed | src/compression.rs:180-235 | five bytes per token and at most one token per input byte |
| Lz77.Parse | src/compression.rs:199-235 | at most one token per remaining input byte |
| Lz77.ChoiceIsLongest | src/compression.rs:220-232 | each back-reference is as long as the longest earlier occurrence that leaves a following byte; a literal appears exactly when none has two bytes |
| Lz77.Lz77Decompress | src/compression.rs:241-268 | the decoder computes the byte-wise meaning of any input, well formed or not |
| Lz77.DecoderPanics | src/compression.rs:252-256 | on any byte string the decoder reads out of range exactly when its first token is a copy |
| Lz77.NoPanicOnceStarted | src/compression.rs:252-256 | after the first byte of output no copy is out of range |
| Lz77.DecodeRendered | src/compression.rs:190-197 | decoding rendered tokens plays them in order |
| Lz77.CopyLaw | src/compression.rs:252-256 | a copied byte equals the one as far before it as the copy starts before the end, so a copy may read its own output |
| Lz77.PlayToken | src/compression.rs:224-231 | within the safe parameters each token plays back exactly the bytes it was emitted for |
| Lz77.RoundTrip | src/compression.rs:186-268 | decompress after compress is the identity for safe parameters |
| Lz77.RoundTripExactly | src/compression.rs:217-229 | it is the identity on all inputs if and only if no offset can outgrow 16 bits and no length 8 bits |
| Lz77.NeverPanicsOnCoded | src/compression.rs:186-268 | whatever the parameters, decoding the coder's own output never reads out of range |
| Lz77.LongRunLoses | src/compression.rs:229 | a length of 256 or more is truncated and bytes are lost |
| Lz77.FarPairLoses | src/compression.rs:217 | an offset of 65536 is truncated to 0 and bytes are lost |
| Lz77.NeverGains | src/compression.rs:241-268 | whatever the parameters, decoding never yields more bytes than were compressed |
| Dictionary.CountSequences | src/compression.rs:102-108 | each sequence of two to four bytes is mapped to its number of occurrences, overlapping ones included |
| Dictionary.BuildDictionary | src/compression.rs:111-114 | the entries are the best-ranked repeated sequences, at most 253, for any order of ties |
| Dictionary.InsertRanked | src/compression.rs:113 | ranking by frequency, then by length |
| Dictionary.BuildLookup | src/compression.rs:117-120 | the lookup map inverts the dictionary |
| Dictionary.MatchEntry | src/compression.rs:127-139 | the longest entry that starts at a position, or that there is none |
| Dictionary.CodeAt | src/compression.rs:125-148 | one coding step: a reference for the longest entry, else an escaped or plain byte |
| Dictionary.CompressWith | src/compression.rs:122-149 | the output is the greedy code of the data |
| Dictionary.DictionaryCompress | src/compression.rs:100-152 | the code decodes to the input with the returned dictionary of at most 253 entries, obeys the greedy law and is at most twice as long |
| Dictionary.CodedIsGreedy | src/compression.rs:125-149 | the code takes a longest entry wherever one starts, and writes every other byte as it is, after 0xFF if it is 0xFE or 0xFF |
| Dictionary.GreedyCodeIsUnique | src/compression.rs:125-149 | with a dictionary that lists nothing twice, that leaves one code |
| Dictionary.RoundTrip | src/compression.rs:100-177 | for any dictionary of at most 256 entries decoding undoes coding and the size at most doubles |
| Dictionary.DictionaryDecompress | src/compression.rs:154-177 | the decoder computes the meaning of any code, including truncated and out-of-range references |
| RunLength.RunLengthEncode | src/compression.rs:57-74 | the output is the one canonical pair list that stands for the input |
| RunLength.CanonicalIsUnique | src/compression.rs:53-56 | no two canonical lists stand for the same bytes |
| RunLength.FirstRun | src/compression.rs:65-69 | a canonical count is the length of the longest run, capped at 255 |
| RunLength.RunLengthDecode | src/compression.rs:77-89 | the decoder expands any byte string, ignoring a trailing odd byte |
| RunLength.EncodeDecoded | src/compression.rs:57-89 | encode after decode is the identity on canonical lists |
| Compression.Compress | src/compression.rs:277-313 | whatever algorithm is chosen, the payload stands for the input and is the one its coder's law and fixed parameters allow |
| Compression.PayloadIsUnique | src/compression.rs:277-313 | given the dictionary, algorithm and input determine the payload |
| Formats.PairFormat | src/compression.rs:77-89 | count before byte; a zero count and a trailing odd byte stand for nothing |
| Formats.ReferenceFormat | src/compression.rs:154-177 | markers, indices past the end and a marker at the end, on concrete bytes |
| Formats.TokenFormat | src/compression.rs:190-197 | the five bytes of a token |
| Formats.OverlapFormat | src/compression.rs:241-268 | a copy that reads its own output, followed by an incomplete token |
| Formats.FarOffsetFormat | src/compression.rs:253 | an offset past the start of the output means its start |
| Formats.NoCopyFormat | src/compression.rs:252-265 | without an offset, a length or the flag 1 only the next byte is written |
| Formats.CodeOfAbcabcd | src/compression.rs:186-235 | "abcabcd" becomes three literals and the reference (3, 3, 'd') |
| Compression.Decompress | src/compression.rs:316-326 | the payload's meaning is computed for any payload |
| Compression.RoundTrip | src/compression.rs:277-326 | every algorithm is lossless through the dispatcher |
| JobDags.DfsHasCycle | src/dag.rs:246-272 | a reported cycle exists; otherwise everything finished is closed under successors and on no cycle |
| JobDags.FinishNode | src/dag.rs:270-271 | a node whose successors are all finished can be finished |
| JobDags.JobDag.HasCycle | src/dag.rs:232-244 | true exactly when the graph has a cycle |
| JobDags.JobDag.AddNode | src/dag.rs:172-184 | a fresh id, no new edge, and the graph stays valid and acyclic |
| JobDags.JobDag.AddEdge | src/dag.rs:190-214 | accepted exactly when both nodes exist and `to` does not reach `from`; a rejected edge leaves the graph as it was |
| JobDags.RollbackRestores | src/dag.rs:205-210 | removing every copy of the rejected edge restores the graph exactly |
| JobDags.EdgeOrRollback | src/dag.rs:200-213 | an edge keeps the graph acyclic exactly when its head did not reach its tail |
| JobDags.Build | src/dag.rs:172-214 | any sequence of insertions builds exactly the graph of the rightly accepted ones: an edge is accepted when both ids exist by then and its head does not reach its tail along the edges accepted before; a rejected one leaves no trace |
| JobDags.AcceptanceIsUnique | src/dag.rs:190-214 | which insertions are accepted is determined by the sequence |
| JobDags.AcceptedIsAcyclic | src/dag.rs:200-213 | whatever is asked for, the accepted edges form no cycle |
| Digraph.AcyclicAfterEdge | src/dag.rs:188-189 | one more edge creates a cycle exactly when its head reaches its tail |
| Digraph.NoSourceMeansCycle | src/dag.rs:309-313 | a nonempty set of nodes that all wait for one another contains a cycle |
| Digraph.TopologicalIsAcyclic | src/dag.rs:274-277 | a graph with a topological order has no cycle |
| JobDags.JobDag.TopologicalOrder | src/dag.rs:278-314 | Some exactly when the graph is acyclic, duplicate-free and closed; then every node once, after its dependencies |
| JobDags.PendingStep | src/dag.rs:299-303 | a listed predecessor lowers a counter once, however often it is repeated |
| JobDags.PendingZero | src/dag.rs:280-284 | a counter is zero exactly when the list has no repeats and all its entries are listed |
| JobDags.LeftOver | src/dag.rs:309-313 | on duplicate-free closed graphs nodes are left over only because of a cycle |
| JobDags.JobDag.LeafNodes | src/dag.rs:317-329 | exactly the nodes no node depends on |
| DagExecution.DagExecutor.Execute | src/dag.rs:373-485 | the error cases exactly, with nothing submitted; otherwise the log shows each node submitted and answered once with its own job, after all its dependencies were answered, in one plus the last wave of its dependencies; all and leaf outputs are exact, the leaf set is nonempty, executed and dropped nodes are counted |
| DagExecution.DagExecutor.SplitReady | src/dag.rs:408-416 | a wave is exactly the remaining nodes whose dependencies have completed |
| DagExecution.DagExecutor.RunWave | src/dag.rs:430-466 | the log gains the whole wave and then, in any order of completion, the answer of each of its jobs, which is collected once |
| DagExecution.DagExecutor.SpawnWave | src/dag.rs:430-441 | every node of the wave is submitted before an answer is taken |
| DagExecution.SomeNodeIsReady | src/dag.rs:418-422 | in an acyclic graph the no-progress branch is unreachable |
| DagExecution.NextWave | src/dag.rs:404-469 | a node runs right after the last of its dependencies |
| DagExecution.WaveCountIsLongestChain | src/dag.rs:404-469 | the number of waves is the length of a longest dependency chain |
| DagExecution.ScheduleIsShortest | src/dag.rs:404-469 | no orderly log of submissions and answers that starts every node has fewer waves than the schedule |
| DagExecution.DroppedJobsFailExactly | src/dag.rs:446-455 | the documented promise, that a dropped job fails the execution with JobDropped, is kept exactly when the router drops no job of the graph; with any other failure counted, exactly when it drops none or an edge is repeated |
| DagExecution.DroppedJobSucceeds | src/dag.rs:450-456 | a graph whose only job is dropped executes successfully, with one node executed and one dropped |
| DagExecution.EveryNodeReachesLeaf | src/dag.rs:317-329 | in an acyclic graph every node leads to a leaf |
| DagExecution.LeafMeaning | src/dag.rs:317-329 | a leaf is a node that no edge leaves |
| DagExecution.RepeatedEdgeFails | src/dag.rs:280-313 | two nodes, the same edge inserted twice with success: the graph is acyclic and the executor reports a cycle and submits nothing |
| DependencyGraphs.DependencyGraph.AddService | src/dependency_graph.rs:86-88 | adds or replaces the node |
| DependencyGraphs.DependencyGraph.AddDependency | src/dependency_graph.rs:94-111 | adds one edge to the full graph, and to the hard graph only for hard dependencies |
| DependencyGraphs.DependencyGraph.MarkFailed | src/dependency_graph.rs:114-118 | marks a registered service and nothing else |
| DependencyGraphs.DependencyGraph.BuildReverse | src/dependency_graph.rs:141-151 | the reverse map holds exactly the counted edges |
| DependencyGraphs.DependencyGraph.CollectImpacted | src/dependency_graph.rs:154-169 | the search returns exactly the services outside the failed set that reach it, once each |
| DependencyGraphs.DependencyGraph.PropagateFailures | src/dependency_graph.rs:126-180 | returns, sorted, exactly the services that reach a failed one through hard edges, and marks those that are registered |
| DependencyGraphs.PropagateAgain | src/dependency_graph.rs:117-125 | after marking, only unregistered services are still impacted |
| DependencyGraphs.ImpactMeaning | src/dependency_graph.rs:126-169 | impacted means: not failed itself, and a chain of hard edges leads to a failed service |
| DependencyGraphs.DependencyGraph.PropagateTwice | src/dependency_graph.rs:126-180 | an immediate second call returns exactly the unregistered ids and marks nothing; it returns nothing exactly when every impacted id was registered, as when all sources of hard edges are |
| DependencyGraphs.GhostStaysImpacted | src/dependency_graph.rs:126-180 | with the hard edge ghost -> a and a failed, both calls return ghost |
| DependencyGraphs.ImpactedIsSource | src/dependency_graph.rs:154-169 | only a source of a hard edge can be impacted |
| DependencyGraphs.DependencyGraph.ImpactRadius | src/dependency_graph.rs:278-310 | the number of other services that reach the given one through any edges |
| DependencyGraphs.DependencyGraph.InDegrees | src/dependency_graph.rs:321-330 | in-degrees count parallel edges, into registered services only |
| DependencyGraphs.DependencyGraph.KahnOrder | src/dependency_graph.rs:333-365 | lists exactly the grounded services in topological order; with sorting, ranked by the last position with an edge into them and then in byte order |
| DependencyGraphs.DependencyGraph.Subtract | src/dependency_graph.rs:349-363 | one step lowers the counters of the targets and queues those that reach zero, in byte order behind those queued before |
| ServiceOrder.RankTarget | src/dependency_graph.rs:349-363 | what a popped service releases keeps the list ranked |
| ServiceOrder.RankedIsUnique | src/dependency_graph.rs:333-365 | a set of services has one topological order ranked like that |
| ServiceOrder.CountNode | src/dependency_graph.rs:345-347 | a working in-degree is the number of edges from services not yet popped |
| ServiceOrder.ListedAreGrounded | src/dependency_graph.rs:366-376 | Kahn's algorithm lists exactly the services into which every chain is registered and repeats nothing |
| ServiceOrder.AllGrounded | src/dependency_graph.rs:274-276 | without cycles and unregistered sources that is every service |
| DependencyGraphs.DependencyGraph.LongestChains | src/dependency_graph.rs:235-251 | each entry is one more than its predecessor's and no processed edge would improve it |
| DependencyGraphs.DependencyGraph.CriticalPath | src/dependency_graph.rs:186-274 | on any graph the walk ends in a path of hard edges without repeats, as long as any chain whose inner services are grounded, and at a root when it has two services or more; empty exactly without services |
| DependencyGraphs.LongPathStartsAtRoot | src/dependency_graph.rs:182-183 | no hard edge enters the first of two or more services of such a path |
| DependencyGraphs.StartsAtRootExactly | src/dependency_graph.rs:182-183 | every path that may be returned starts at a root exactly when some edge leaves a grounded service or all services are roots |
| DependencyGraphs.CycleMayBeReturned | src/dependency_graph.rs:182-183 | with a -> a and b alone, a may be returned although b is the only root |
| ServiceOrder.TableBounds | src/dependency_graph.rs:235-251 | a table entry is at least as long as every grounded chain into it |
| ServiceOrder.ExtendTail | src/dependency_graph.rs:261-271 | following a predecessor lengthens the path and lowers the table value, so the walk ends |
| DependencyGraphs.CriticalPathIsLongest | src/dependency_graph.rs:182-186 | without cycles and unregistered sources the path is a longest hard chain |
| DependencyGraphs.CriticalPathIsLongestExactly | src/dependency_graph.rs:182-186 | on any graph the path is a longest simple chain of registered services exactly when every such chain is matched in length by one through grounded services |
| DependencyGraphs.UnregisteredSourceHidesChain | src/dependency_graph.rs:193-201 | the graph ghost -> a -> b with a and b registered: a -> b is a simple chain and the critical path has one service |
| DependencyGraphs.DependencyGraph.RecoveryOrder | src/dependency_graph.rs:317-378 | the grounded services in ranked topological order, then the others in byte order; so of two grounded services first comes the one whose last incoming edge leaves an earlier position, or the smaller id if that is the same |
| DependencyGraphs.PlaceOfGrounded | src/dependency_graph.rs:338-365 | that law, over services, edges and the list alone |
| DependencyGraphs.RecoveryOrderIsUnique | src/dependency_graph.rs:338-376 | services and edges determine the recovery order, independent of hash and insertion order |
| Lexicographic.LeMeaning | src/dependency_graph.rs:341 | byte order: smaller at the first difference, or a beginning |
| DependencyGraphs.OrderIsComplete | src/dependency_graph.rs:366-376 | every registered service is listed exactly once, on every graph |
| DependencyGraphs.GroundedEdgesGoForward | src/dependency_graph.rs:345-365 | an edge that leaves a grounded service goes forward |
| DependencyGraphs.RecoveryIsTopological | src/dependency_graph.rs:496-497 | without cycles and unregistered sources every `from` precedes its `to` |
| DependencyGraphs.RecoveryIsTopologicalExactly | src/dependency_graph.rs:333-376 | on any graph every `from` precedes its `to` exactly when each edge leaves a grounded service or leads to a larger id |
| DependencyGraphs.UnregisteredSourceReversesOrder | src/dependency_graph.rs:366-376 | with ghost -> z and z -> a, whose inner edges have no cycle, the order is a, z |
| DependencyGraphs.DependenciesFirstExactly | src/dependency_graph.rs:312-316 | the documented order is met exactly when no edge leaves a grounded service and the others lead to smaller ids |
| DependencyGraphs.DependentRecoveredFirst | src/dependency_graph.rs:312-316 | with the one edge a -> b the order is a, b, against the documentation |
| HashMix.HashMixJob | src/strategies.rs:37-54 | the loops compute the hash of the inputs and the cost |
| HashAnswers.KnownAnswers | src/strategies.rs:37-54 | the hashes of one word with one round, of none with two, and of two words with a cost that is rounded down |
| HashAnswers.AnswersOfJobs | src/strategies.rs:37-54 | the kernel returns them |
| HashAnswers.XorOfWords | src/strategies.rs:40-46 | exclusive or of words is that of their bytes as bit vectors |
| HashAnswers.ShiftIsDivision | src/strategies.rs:42 | a right shift by n divides by 2^n |
| HashAnswers.RotationIsMultiplication | src/strategies.rs:50 | rotating left by 7 multiplies by 128 modulo 2^64 - 1 |
| HashMix.XorShiftUndone | src/strategies.rs:42-46 | the xor-shift by 33 is its own inverse on 64-bit words |
| HashMix.MulUndone | src/strategies.rs:41-45 | wrapping multiplication by an odd constant is undone by its inverse |
| HashMix.MixUndone | src/strategies.rs:41-46 | the mixing cascade is a bijection |
| HashMix.AbsorbUndone | src/strategies.rs:40-46 | taking in a word is a bijection of the state |
| HashMix.RoundUndone | src/strategies.rs:50-51 | a final round is a bijection |
| HashMix.HashIsBijectiveInEachWord | src/strategies.rs:37-54 | with the rest fixed, each hash value comes from exactly one value of any one input word |
| HashMix.OneDifferenceSeparates | src/strategies.rs:37-54 | equally long inputs that differ in one position never hash alike |
| Sieve.PrimeCount | src/strategies.rs:61-78 | the output is the number of primes up to the clamped bound |
| Sieve.Clamp | src/strategies.rs:62 | the bound is kept within its limits and otherwise unchanged |
| Sieve.StrikeMultiples | src/strategies.rs:68-74 | after the inner loop a mark means that no smaller number up to p divides the index |
| Sieve.SurvivorIsPrime | src/strategies.rs:67-76 | once p exceeds the square root the marked indices are the primes |
| Sieve.StruckBefore | src/strategies.rs:68-70 | starting at the square and skipping struck numbers misses no multiple |
| LoadTrend.Autoscaler.Observe | src/autoscaler.rs:172-175 | the buffer is the window of the last observations, the new one last |
| LoadTrend.WindowIsSuffix | src/autoscaler.rs:172-175 | that window is the last part of all observations, as long as fits |
| LoadTrend.BufferBoundExactly | src/autoscaler.rs:138-139 | the buffer never exceeds its capacity exactly when the capacity is positive |
| LoadTrend.Autoscaler.PredictRate | src/autoscaler.rs:227-305 | the prediction is the fitted line at the horizon, not below zero; linear growth is extrapolated exactly |
| LoadTrend.LinearGrowthIsPredicted | src/autoscaler.rs:227-305 | from the observations alone: when the rates lie on a line at the midpoints of even intervals, the prediction is that line at the last observation plus the horizon, or zero |
| LoadTrend.SamplesAreIntervals | src/autoscaler.rs:236-257 | one sample for each interval in which the clock moves forward, in order, with its rate and its midpoint rounded down |
| LoadTrend.PredictionOfThree | src/autoscaler.rs:227-305 | three observations with rates 1 and 2 give 3.5 ten seconds later |
| LoadTrend.ExactLine | src/autoscaler.rs:266-288 | samples on a line are fitted by it |
| LoadTrend.DenominatorZero | src/autoscaler.rs:273-275 | the denominator is zero exactly when all midpoints coincide, and positive otherwise |
| LoadTrend.EpsilonTest | src/autoscaler.rs:275 | the epsilon test holds exactly for a zero denominator |
| LoadTrend.FitBalances | src/autoscaler.rs:266-288 | in both branches the residuals sum to zero, also weighted by time |
| LoadTrend.FitIsLeastSquares | src/autoscaler.rs:266-288 | no line has a smaller sum of squared residuals |
| LoadTrend.FitIsUnique | src/autoscaler.rs:266-288 | unless all midpoints coincide every other line is strictly worse |
| LoadTrend.ConstantRate | src/autoscaler.rs:266-288 | a constant rate is fitted exactly |
| LoadTrend.SteadyLoadIsPredicted | src/autoscaler.rs:227-305 | when every interval has the same rate the prediction is that rate |
| DynamicScaling.DeltaExactly | src/autoscaler.rs:1264-1270 | the signed delta is the intended change exactly for counts below 2^31, or 2^31 on the way down without overflow checks |
| DynamicScaling.DecisionIsUnique | src/autoscaler.rs:1358-1385 | the conditions on a decision leave exactly one for each input |
| DynamicScaling.DecisionStaysInside | src/autoscaler.rs:1370-1385 | a decision moves the fleet past no limit, also from outside the limits |
| DynamicScaling.DynamicAutoscaler.RecordScalingEvent | src/autoscaler.rs:1399-1408 | the cooldown timer is the time of the last scaling entry |
| DynamicScaling.DynamicAutoscaler.Evaluate | src/autoscaler.rs:1352-1389 | the decision: cooldown exactly inside its window, else a step as the signal asks and the limits allow; scaling entries stay apart for any clock |
| DynamicScaling.SpacedAppend | src/autoscaler.rs:1358-1365 | a scaling entry outside the cooldown keeps all entries apart |
| DynamicScaling.Run | src/autoscaler.rs:1352-1408 | each history entry is the decision for its reading, the fleet at that time and the last scaling before it, and is applied to the fleet |
| DynamicScaling.RunIsUnique | src/autoscaler.rs:1352-1408 | readings, policy and first fleet determine the whole run |
| DynamicScaling.EveryRunIsSpaced | src/autoscaler.rs:1358-1365 | in every run scaling entries are at least the cooldown apart |
| DynamicScaling.EveryFleetIsInside | src/autoscaler.rs:1370-1385 | in every run the fleet stays within its limits, or between them and where it started |
| DynamicScaling.OverloadFillsFleet | src/autoscaler.rs:1369-1376 | under a steady overload with the cooldown elapsed the fleet grows by the step each time until it is full |
| DynamicScaling.IdlenessEmptiesFleet | src/autoscaler.rs:1377-1384 | under a steady lack of load it shrinks likewise to its minimum |
| ConnectionPools.ConnectionPool.Acquire | src/connection_pool.rs:137-167 | reuses the first idle slot, else creates a fresh id below capacity, else fails unchanged |
| ConnectionPools.ConnectionPool.Release | src/connection_pool.rs:173-185 | changes only the slot with that id |
| ConnectionPools.ConnectionPool.EvictStale | src/connection_pool.rs:190-210 | keeps exactly the surviving slots in order and counts the others |
| ConnectionPools.ConnectionPool.HealthCheckAll | src/connection_pool.rs:218-231 | marks exactly the sick idle slots and returns their ids in order |
| ConnectionPools.ConnectionPool.Stats | src/connection_pool.rs:252-265 | the reported classes add up to the total |
| ConnectionPools.KeptIdsAreDistinct | src/connection_pool.rs:193-206 | eviction keeps ids distinct |
| ConnectionPools.EvictedByAge | src/connection_pool.rs:193-206 | an idle slot goes by either age limit, one in use by its lifetime only |
| ConnectionPools.EvictionAges | src/connection_pool.rs:193-206 | with limits 10 and 100, when slots go exactly |
| ConnectionPools.HealthThresholds | src/connection_pool.rs:218-231 | the interval and the error count from which an idle slot is sick |
| ConnectionPools.PartsInOrder | src/connection_pool.rs:193-231 | eviction and health check go through the slots in order: what they keep and report of two parts are the two results in a row |
| ConnectionPools.OnePart | src/connection_pool.rs:193-231 | what they keep and report of one slot |
| ConnectionPools.ReleasedSlotStays | src/connection_pool.rs:173-206 | a slot released at some time survives eviction until it has been unused for too long since then, or is too old |
| ConnectionPools.TakenSlotStays | src/connection_pool.rs:137-206 | a slot taken at some time survives eviction until it is too old |
| ConnectionPools.UsesAreCounted | src/connection_pool.rs:137-231 | in any run the use counts of the slots add up to at most the acquisitions, and to exactly these without eviction |
| ConnectionPools.AcquireIsExclusive | src/connection_pool.rs:137-167 | an acquired id is on loan to nobody, even if an in-use slot was evicted |
| ConnectionPools.StepKeepsInvariant | src/connection_pool.rs:137-231 | one step keeps the books (no id on loan twice or free while on loan; slots, ids and loans accounted for) exactly when it is not a release of a live connection that only another caller holds |
| ConnectionPools.RunKeepsBooksExactly | src/connection_pool.rs:137-231 | in any run of any callers every state has its books right exactly when every release is harmless |
| ConnectionPools.HoldersAreCounted | src/connection_pool.rs:137-185 | when callers release only what they hold, acquisitions are releases plus loans and no id is on loan twice |
| ConnectionPools.HoldersAreNeverSick | src/connection_pool.rs:218-231 | when callers release only what they hold, a health check finds nothing in any state at any time |
| ConnectionPools.SickAfterBadReleases | src/connection_pool.rs:173-231 | five releases of one connection by one caller, all harmless, leave an idle slot with four errors that the health check finds |
| ConnectionPools.RunCallers | src/connection_pool.rs:137-231 | playing any steps on a pool is such a run and ends in the pool's state |
| ConnectionPools.SharedAfterDoubleRelease | src/connection_pool.rs:173-185 | in every run of five given steps the second release is of an id another caller then holds, and two callers end up with it |
| ConnectionPools.DoubleRelease | src/connection_pool.rs:173-185 | such a run on a pool of one connection |
| Bulkheads.MoveKeepsInvariant | src/bulkhead.rs:147-211 | each atomic step keeps every counter equal to the number of calls it stands for; no decrement underflows |
| Bulkheads.RunKeepsInvariant | src/bulkhead.rs:147-211 | every interleaving of such steps keeps the counters so |
| Bulkheads.EveryRunIsSafe | src/bulkhead.rs:147-211 | calls in flight never exceed permits held nor those the limit; finished runs leave the gauges at zero and record each call once |
| Bulkheads.EveryRunEnds | src/bulkhead.rs:147-211 | every run is finite and one that cannot go on has finished every call |
| Bulkheads.OutcomesAreRecorded | src/bulkhead.rs:147-211 | in every run a call is let in only after it read one limit as not reached; it is recorded as completed only when its future ended in time, and as failed only when it did not and the future or the wait timed out or both limits were read as reached |
| Bulkheads.CompletionsAreCounted | src/bulkhead.rs:197-209 | once all calls have finished, total_completed is the number of steps that ended a future in time and total_rejected that of the other calls |
| Bulkheads.NoDeadlock | src/bulkhead.rs:175-211 | with at least one permit, a run in which no call can go on without a timeout has finished every call |
| Bulkheads.MoveKeepsQueueInvariant | src/bulkhead.rs:151-173 | a call reads a full bulkhead only when as many calls as permits are past the queue for good |
| Bulkheads.QueueLimitExactly | src/bulkhead.rs:151-173 | no interleaving exceeds the queue limit exactly when no queue is allowed or permits and queue have room for every call |

## Left out

- Networking, routing, tracing and the HTTP surface: input and output.
- Entropy and `auto_select`: floating-point logarithms; any choice is lossless by `Compression.Compress`.
- `montecarlo_risk`: floating-point simulation.
- The rate EMA, its variance and the dynamic horizon: floating-point heuristics; the horizon is a parameter of `PredictRate`, and the guards against NaN and infinity have no counterpart in exact arithmetic.
- `recommend`, `recommended_policy` and the composite signal: threshold arithmetic; the signal is a parameter of `Evaluate`.
- When, within its wave, a spawned task calls the router: the log records the spawning.
- The `TaskFailed` path of the executor and `to_graph_payload`: runtime panics and formatting.
- Cancellation of a bulkhead call in mid-wait, which skips the decrements, and the other bulkhead type of that file.
- Bulkheads.EveryRunIsSafe: is about interleavings of atomic steps on values, so weak memory orderings are not modelled.
- `BackendPoolManager`: a map of pools.
- Overflow of `usize` sums such as `pos + lookahead` and of the pool's 64-bit counters.
- Dictionary.BuildDictionary: the library sort is an insertion into a ranked list, without claims about its stability.
