# Fusion pipeline: verified model

A Dafny 4.11 model of the parts of the Fusion record pipeline that hold state, branch or compute
on their own, with proofs of what they promise. `dafny verify dfyconfig.toml` checks all of it.

Each module follows one source component, in that component's form: code that updates something
step by step is a method or a class with loops and invariants, held to a specification function;
what the component promises is then proved about the specification.

| part | modules |
|---|---|
| dedupe over a shared store, and settlement | `Dedupe`, `Settlement`, `DedupeRuns`, `Fates`, `Deliveries` |
| the state store and its namespaces | `Store`, `Keys` |
| graph building | `Graph`, `DepthFirst`, `Dag` |
| the walk of a record | `Flow` (a walk that copies at every fan-out), `Trace`, `Engine` (the sharing walk), `Build`, `Answers` |
| span ids | `Hash`, `TraceIds` |
| the ReDoS lint | `RegexAst`, `Lint`, `LintMeaning` |
| the match iterator and replacer | `Matches` |
| field paths and record edits | `Json`, `PathText`, `PathWalk`, `Fields`, `Edit` |
| conditions | `Lexer`, `TokenText`, `ConditionParser`, `ConditionText`, `Condition` |
| records in Lua | `LuaTables`, `LuaCrossing`, `LuaReader`, `LuaRoundTrip` |
| the load plan | `SplitMix`, `Plan` |
| the verdict | `Tallies`, `Verdict`, `VerdictLaws`, `VerdictMeaning` |
| subjects | `Subject` |
| shared helpers | `Wrappers`, `Decimal`, `Utf8`, `Sequences` |

What decides things outside the source is a parameter: stage and sink outputs and their panics,
regex engines, the digest of `hash`, the reading of float literals, the draws in claims that hold
of every draw, the order in which a map is visited, what a store answers, when keys expire, and
which worker acts next.
Integers are 64-bit where the source's are and that matters, floats are real numbers, and text is
a sequence of characters unless bytes are counted (`Matches`, `Subject`, `LuaCrossing.TextBytes`).

## Where the code does less than its words

* **Repeat margin of a load plan** (`crates/harness/src/plan.rs:10-12`, `116-123`). The plan says
  that a body never comes back before the dedupe window, the duplicate lag and a margin have
  passed. The check counts on duplicates taking up their share of the time, which a draw need not
  give. `Plan.AcceptedPlanRepeatsEarly` and `Plan.HalfShareRepeatsEarly` are accepted plans with seeds that
  break it,
  `Plan.NeededTimeIsKeptExactlyWhen` the exact condition on the flags for the promise to hold
  under every sequence of draws, at every share from 0 to 50 %, and `Plan.BodiesAreNeverEarlier`
  what every accepted plan keeps whatever the draws.
* **Inline flags in a repeated alternation** (`crates/regex/src/lint.rs:304-311`). Leaves are
  translated without the flags in force, so `(?:(?i)a|A)*` is not flagged although its branches
  overlap: `Lint.InlineFlagsEscape`. The lint's guarantee is proved wherever no flag lets a leaf match
  more than its translation, and for any flags when the alternation as the flags have it is unflagged
  (`Lint.InForceStartsAlike`).
* **Bodies repeated zero times** (`crates/regex/src/lint.rs:229-241`). The first set counts in the body
  of a `{0}`, which no word holds, so an alternation can be flagged for a restart that cannot happen.
  `LintMeaning.FlaggedExactlyWhen` is exact with such bodies made optional; in an expression without one
  that changes nothing.
* **Span ids** (`crates/core/src/trace.rs:117-126`). A raw id of zero becomes one; two positions of a
  record share an id exactly when their raw ids are zero and one (`Hash.SubstitutionCollides`), and every
  record has exactly one such pair among its deliveries below 2^32 (`Hash.EveryKeyCollides`).
* **Writes through a list** (`crates/core/src/path.rs:483-503`). A segment that names no item
  replaces the whole list, so a write can disturb a path that parts from it there; `PathWalk.WriteFrame`
  and `PathWalk.WriteDisturbs` say exactly when.
* **Large integers in Lua** (`crates/lua/src/convert.rs:89-93`). An integer beyond 63 bits comes back as
  a float, so an untouched record survives exactly under `LuaRoundTrip.RecordSurvives`' condition.

## Model

| member | source | states |
|---|---|---|
| Dedupe.ParseToBytes | crates/stages/src/dedupe.rs:217-231 | reading a stored holder gives back the holder written, for all 64-bit ids and times |
| Dedupe.ToBytesInjective | crates/stages/src/dedupe.rs:217-220 | two holders are stored as the same text only if they are one holder |
| Dedupe.ParseMeans | crates/stages/src/dedupe.rs:222-231 | a text reads as a holder exactly when it is two 64-bit numbers around one space |
| Dedupe.Process | crates/stages/src/dedupe.rs:115-155 | against any answers of the store: a claim whose reply settles the record unless it is a stale holder, then one takeover of exactly that holder ruled on alike, then a second whose refusal passes the record; a reading drops it exactly when another record holds the key and its window covers this one |
| Settlement.NakDelayBacksOff | crates/nats/src/source.rs:81-92 | nak delays start at one second, double, never shrink, and are 30 seconds exactly from the sixth delivery on |
| Settlement.Publish | crates/nats/src/source.rs:228-263 | a dead letter counts as stored exactly when one of four tries stores it, with 250, 500 and 1000 ms between them |
| Settlement.SettleFailure | crates/nats/src/source.rs:170-225 | a failed delivery is settled once, last; terminated exactly when its dead letter was stored on a final delivery, nakked in every other case |
| DedupeRuns.InvStep | crates/stages/src/dedupe.rs:115-155 | every step of every worker, the clock, a crash, the source or a foreign writer keeps the invariant on holders, readings and settlement |
| DedupeRuns.RunKeepsInv | crates/stages/src/dedupe.rs:115-155 | so every state of every run has it |
| DedupeRuns.DropIsCovered | crates/stages/src/dedupe.rs:207-214 | a decision to drop rests on a holder some message wrote, whose window covers the record |
| DedupeRuns.ChainFrom | crates/stages/src/dedupe.rs:207-247 | from any message a finite chain of holders leads to one that is accounted for |
| DedupeRuns.NothingVanishes | crates/stages/src/dedupe.rs:115-155 | a record acked as a repeat heads a finite chain of holders, each inside the next one's window, ending in a record that passed, was dead-lettered, ran out of deliveries or is still owed one |
| DedupeRuns.TerminatedAfterDeadLetter | crates/nats/src/source.rs:170-225 | in every run a message is terminated only after its dead letter was stored, on a delivery at the limit |
| DedupeRuns.NakkedBelowLimit | crates/nats/src/source.rs:170-225 | a failed delivery is nakked only below the limit or with an unreadable count, and dead-lettered from the limit on |
| DedupeRuns.HolderStep | crates/core/src/memory.rs:432-451 | one step that neither expires the key nor overwrites it from outside keeps its holder or replaces it by one ingested at least a window later |
| DedupeRuns.HolderSuccession | crates/stages/src/dedupe.rs:130-154 | between expiries the ingestion times of a key's holders rise by at least the window at each change, under any interleaving |
| DedupeRuns.OneWindowOneHolder | crates/stages/src/dedupe.rs:130-154 | with no expiry and all times in one window the first holder stays for the rest of the run |
| DedupeRuns.NoTakeovers | crates/stages/src/dedupe.rs:130-154 | and no event of the run is a takeover of the key, accepted or refused |
| DedupeRuns.OneWindowDrops | crates/stages/src/dedupe.rs:207-247 | and a judged record drops exactly when it is not the holder again and is not older than it |
| DedupeRuns.CoveredDrops | crates/stages/src/dedupe.rs:139-154 | on its claim or after one refused takeover, a worker that reads another record's holder whose window covers its record can only drop it |
| DedupeRuns.RefusedThenDrops | crates/stages/src/dedupe.rs:139-154 | in every run, a worker whose first takeover is refused because such a holder has the key by then drops its record with its next step, or crashes |
| Deliveries.ClaimIsSetNx | crates/core/src/memory.rs:407-423 | a run's claim is the reference store's `set_nx`, lost requests and replies included, and the worker goes on by its answer |
| Deliveries.TakeOverIsCompareAndSet | crates/core/src/memory.rs:432-451 | a run's takeover is the reference store's `compare_and_set`, expecting exactly the value last read |
| Deliveries.ClockExpiresKeys | crates/core/src/memory.rs:289-295 | a move of the store's clock is an expiry of each key past its ttl |
| Deliveries.DeliveryIsExchange | crates/stages/src/dedupe.rs:115-155 | in every run what a delivery asks is an exchange of `Dedupe.Process` under way, and its record passes or drops by that exchange's output |
| Deliveries.ExchangeIsUnique | crates/stages/src/dedupe.rs:115-155 | the same replies make the same exchange, so it is the one `Dedupe.Process` returns |
| Fates.DeliverThenClaim | crates/stages/src/dedupe.rs:115-138 | from any state: a delivery and its claim, answered or lost on the way there or back, under either policy |
| Fates.FreshIsAcked | crates/stages/src/dedupe.rs:115-138 | a record whose key nobody holds passes, holds the key and is acked |
| Fates.RepeatIsDropped | crates/stages/src/dedupe.rs:207-247 | a repeat in a holder's window is dropped and acked, and the holder stays |
| Fates.StaleIsTakenOver | crates/stages/src/dedupe.rs:139-154 | a holder whose window is over is taken over, and the record passes |
| Fates.FailureIsSettled | crates/nats/src/source.rs:170-225 | a failed delivery waits for the next below the limit; at the limit it is terminated once its dead letter is stored, and waits on otherwise |
| Fates.GivenUpOrRedelivered | crates/nats/src/source.rs:170-225 | a message that waits with no delivery left is given up, and a crash makes one in flight wait again |
| Store.MemoryStateStore.Live | crates/core/src/memory.rs:289-295 | dropping an expired entry on the way changes nothing a caller can tell |
| Store.MemoryStateStore.DoSetNx | crates/core/src/memory.rs:407-423 | the claim of the reference map, whose keys vanish at their ttl |
| Store.MemoryStateStore.DoSet | crates/core/src/memory.rs:425-430 | the write of the reference map |
| Store.MemoryStateStore.DoCompareAndSet | crates/core/src/memory.rs:432-451 | the conditional write of the reference map |
| Store.MemoryStateStore.DoGet | crates/core/src/memory.rs:453-457 | the read of the reference map |
| Store.MemoryStateStore.DoIncr | crates/core/src/memory.rs:459-481 | the counter of the reference map, its two failures included |
| Store.MemoryStateStore.DoDel | crates/core/src/memory.rs:483-488 | the removal of the reference map |
| Store.MemoryStateStore.LiveKeys | crates/core/src/memory.rs:398-403 | lists exactly the keys that stand, and leaves only them |
| Store.MemoryStateStore.PerformAll | crates/core/src/memory.rs:364-489 | any run of the six operations, clock moves and outages gives the reference's answers and ends in its state |
| Store.StandsUntilTtl | crates/core/src/memory.rs:289-307 | a key nobody touches stands exactly until its ttl has run out, over any run |
| Store.ClaimHolds | crates/core/src/memory.rs:407-423 | a claim is refused to others exactly while its ttl lasts |
| Store.IncrementsAddUp | crates/core/src/memory.rs:459-481 | increments of a standing key add up |
| Store.ParsePrintInt | crates/core/src/memory.rs:462-478 | a counter's text reads back as its number exactly within `i64` |
| Store.ParseIntMeans | crates/core/src/memory.rs:462-478 | digits read as their number after leading zeros and at most one sign |
| Store.ParsedIntIsWritten | crates/core/src/memory.rs:462-478 | and nothing else reads as a number |
| Keys.EscapeSegment | crates/core/src/stage.rs:261-274 | the loop, with its early return, computes the escape |
| Keys.UnescapeEscape | crates/core/src/stage.rs:261-274 | the escape can be undone, so two tenants never share a segment |
| Keys.FullKeysDistinct | crates/core/src/stage.rs:138-184 | full keys are equal exactly when pipeline, tenant, node and key are |
| Keys.HandlesAreIndependent | crates/core/src/stage.rs:138-259 | no operation through one handle changes what a handle of another pipeline, tenant or node sees |
| Keys.OthersNeverShow | crates/core/src/stage.rs:138-259 | nor does any run of operations through such handles |
| Keys.EachHandleHasItsOwnMap | crates/core/src/stage.rs:138-259 | in any interleaving with other handles' operations, moves of the clock and failures, a handle gets the answers that its own operations get on a store of its own |
| Keys.HandleIsAMap | crates/core/src/stage.rs:186-259 | a handle reads back what it wrote under a key and is undisturbed by its other keys |
| DepthFirst.Search.Visit | crates/core/src/dag.rs:312-341 | the coloured search with an explicit stack ends; it extends a post-order of finished nodes, or returns a node that lies on a cycle |
| Dag.ResolveEntry | crates/core/src/dag.rs:63-166 | a `from` entry resolves as the specification says, through the id map |
| Dag.EntryMeans | crates/core/src/dag.rs:56-75 | what each entry text reads, or the error it is refused with: the source, a node, or a declared output of a route, cut at the first dot that something follows |
| Dag.Wire | crates/core/src/dag.rs:112-170 | all edges, source consumers and consumed labels, in file order; or the first entry that does not resolve, with its error |
| Dag.FindUnconsumed | crates/core/src/dag.rs:170-180 | finds a declared label nobody reads exactly when there is one |
| Dag.FindUnreachable | crates/core/src/dag.rs:180-194 | finds a node no path from the source reaches exactly when there is one |
| Dag.Sort | crates/core/src/dag.rs:195-205 | on a graph all reached from the source: a topological order, or a node on a cycle |
| Dag.Renumber | crates/core/src/dag.rs:204-227 | the graph renumbered along the order: a permutation, every edge climbing with its label kept |
| Dag.FromConfig | crates/core/src/dag.rs:90-227 | succeeds exactly on configurations with a sink, resolving entries, consumed labels, all nodes reachable and no cycle; the result renumbers the graph; an error blames a node truly at fault, a `Cycle` one that lies on a cycle |
| Dag.BlameIsFair | crates/core/src/dag.rs:90-227 | whatever an error blames is wrong with the configuration |
| Dag.TopologicalIsAcyclic | crates/core/src/dag.rs:195-227 | a graph with a topological order has no cycle |
| Dag.DeclaredLabelsAreRead | crates/core/src/dag.rs:284-293 | in a built graph every label a route declares is on one of its edges |
| Build.BuiltIsWalkable | crates/core/src/dag.rs:172-227 | whatever the builder returns, the walk can run on it and ends |
| Build.NoRecordFallsOffARoute | crates/core/src/engine.rs:580-603 | in a walk of a built graph whose routes name declared labels no visit ends with a label nobody reads |
| Flow.FlowIsConserved | crates/core/src/engine.rs:465-610 | in a walk no panic cuts short a node's records-in count is what the source sends it plus what every upstream visit put on an edge to it |
| Flow.RunNodeConserves | crates/core/src/engine.rs:488-610 | the same for one node's run and all it sets off |
| Flow.WalkIsTree | crates/core/src/engine.rs:465-610 | every visit follows an edge from an earlier visit, or enters from the source |
| Trace.TraceBuffer.Open | crates/core/src/trace.rs:391-405 | a new draft under the next handle, or none when nothing is traced |
| Trace.TraceBuffer.FailOpen | crates/core/src/trace.rs:419-431 | closes exactly the spans still open, as failed |
| Trace.TraceBuffer.Finish | crates/core/src/trace.rs:441-500 | the drafts as spans in visit order, and an empty buffer |
| Trace.FinishedTraceIsTree | crates/core/src/trace.rs:441-500 | finished spans have distinct ids below the visit limit and parents that come before them |
| Engine.Walker.UnwrapOrClone | crates/core/src/engine.rs:535-536 | one reference is used up, and a copy is taken exactly when another is left |
| Engine.Walker.RunNode | crates/core/src/engine.rs:488-610 | the sharing walk makes the visits of the copying walk, sees the same records, and counts its copies |
| Engine.Walker.FanOut | crates/core/src/engine.rs:465-486 | every branch sees the record as it was at the fan-out; the copies taken are the stages among the targets before the last |
| Engine.Walker.SendAll | crates/core/src/engine.rs:547-575 | each record to all targets, whatever becomes of the others |
| Engine.Walker.Charge | crates/core/src/engine.rs:219-253 | counters, span and first failure of one outcome |
| Engine.Handle | crates/core/src/engine.rs:322-449 | one settlement: ack exactly when nothing failed, else a nak with the first failure in visit order, a panic last; counters and exported spans are those of the copying walk, with one error more at the node that panicked; copies are its too when nothing panics |
| Engine.Unwind | crates/core/src/engine.rs:402-430 | a panic is charged to the running node after every earlier failure, and every span is closed before the trace is built |
| Engine.FirstFailureIsFirst | crates/core/src/engine.rs:248-253 | the failure kept is that of the first failing visit |
| Engine.AckedIffNothingFailed | crates/core/src/engine.rs:402-449 | a walk is acked exactly when no visit failed and none panicked |
| Engine.CountersConserveFlow | crates/core/src/engine.rs:465-610 | the records-in counters obey flow conservation |
| Engine.VisitIsCountedOnce | crates/core/src/engine.rs:548-607 | each visit no panic cut short counts as out, as a drop or as an error, but a split into no records as none of them; as both out and error only for a label nobody reads |
| Engine.DeclaredLabelIsRoutable | crates/core/src/dag.rs:284-293 | a label has no consumer exactly when no edge carries it |
| Engine.ExportedTraceIsTree | crates/core/src/engine.rs:406-417 | every exported trace, a panicked walk's too, is a tree along edges of the graph in visit order, ids distinct below the visit limit |
| Answers.SettledByAnswers | crates/core/src/engine.rs:402-448 | by what stages and sinks answered alone: acked exactly when no sink refused, no stage failed, no state error met a `nak` node, no label went unread and nothing panicked, else nakked for the first of these; counters and span results count those answers |
| Answers.RecordsGoWhereAnswersSay | crates/core/src/engine.rs:493-610 | in a walk no panic cuts short each record an answer holds reaches, in order, the nodes on the edges it goes along, and nothing else reaches any node |
| Hash.MixIsBijective | crates/core/src/hash.rs:20-28 | `mix` has a two-sided inverse on 64-bit words |
| Hash.TraceKeysDistinct | crates/core/src/trace.rs:93-103 | two records of one tenant hash have different trace keys |
| Hash.SpanIdsDistinct | crates/core/src/trace.rs:120-126 | of one record, all pairs of a delivery below 2^32 and a visit have distinct raw span ids |
| Hash.SubstitutionCollides | crates/core/src/trace.rs:120-126 | after the zero is replaced two positions collide exactly when their raw ids are zero and one |
| Hash.EveryKeyCollides | crates/core/src/trace.rs:117-126 | every record has exactly one pair of places, deliveries below 2^32, that share a span id |
| TraceIds.ExportedTraceIsTreeById | crates/core/src/trace.rs:441-500 | by its 64-bit ids an exported trace is a tree but for the record's one colliding pair: parents come first, and all its spans stand at different places |
| Lint.ComputeFirstSet | crates/regex/src/lint.rs:229-260 | the loop computes the first set |
| Lint.ComputeShape | crates/regex/src/lint.rs:262-301 | the loops compute the shape, early exits and the unroll limit included |
| Lint.ComputeAlternationOverlaps | crates/regex/src/lint.rs:163-174 | the pairwise loop computes rule 2 |
| Lint.NullableIsExact | crates/regex/src/lint.rs:217-227 | `nullable` holds exactly when the empty word matches |
| Lint.FirstSetCovers | crates/regex/src/lint.rs:229-260 | every non-empty word starts with a character of the first set |
| Lint.ShapeIsCorrect | crates/regex/src/lint.rs:262-301 | every word has its expression's shape: prefix classes, and the length when exact |
| Lint.ExactShapeIsWhole | crates/regex/src/lint.rs:262-301 | an exact shape describes the whole language |
| Lint.NoEmptyBranch | crates/regex/src/lint.rs:163-174 | no branch of an unflagged alternation matches the empty word |
| Lint.UnflaggedStartsAlike | crates/regex/src/lint.rs:335-359 | two readings of one string as iterations of an unflagged alternation start with the same branch |
| Lint.UnflaggedIsUnambiguous | crates/regex/src/lint.rs:335-359 | and are one reading when every branch's shape is exact |
| Lint.InForceStartsAlike | crates/regex/src/lint.rs:304-359 | with any flags, both guarantees hold of an alternation that is unflagged as the flags in force have it |
| Lint.InlineFlagsEscape | crates/regex/src/lint.rs:304-311 | with an inline flag an unflagged alternation can be ambiguous: a concrete pattern |
| Lint.Walker.Walk | crates/regex/src/lint.rs:129-153 | pushes exactly the repetitions rule 2 flags, in walk order |
| Lint.OverlapsAnywhere | crates/regex/src/lint.rs:155-161 | whether any alternation of a repeated body overlaps |
| Lint.FlaggedAreRisky | crates/regex/src/lint.rs:129-161 | the walk flags exactly the repetitions without an upper bound that hold an overlapping alternation at some depth |
| Lint.CleanPattern | crates/regex/src/lint.rs:129-174 | in a pattern the walk flags nothing in, every alternation repeated without bound, at any depth of the body, has those guarantees |
| LintMeaning.FlaggedExactlyWhen | crates/regex/src/lint.rs:335-359 | rule 2 flags an alternation exactly when two branches are confusable by their words: both fixed, and a word of one is a word of the other or begins with one and goes on as the loop can start again; or not both fixed, and with words that agree as far as the lint follows both |
| LintMeaning.ShapeReaches | crates/regex/src/lint.rs:262-301 | a shape is exact just for leaves, groups, concatenations and counted repetitions up to 32 of such, and its prefix is as long as the expression is followed |
| LintMeaning.PrefixOccurs | crates/regex/src/lint.rs:262-301 | whatever the prefix classes spell is how some word begins |
| LintMeaning.FirstOccurs | crates/regex/src/lint.rs:229-260 | every character of the first set starts some word, bodies repeated zero times apart |
| Matches.NextIsNext | crates/regex/src/lib.rs:647-653 | the next boundary is one and there is none in between, on any UTF-8 text |
| Matches.BoundariesAreUtf8 | crates/regex/src/lib.rs:647-653 | in well-formed UTF-8 boundaries are just the offsets where no character goes on, and the next one is where the current character ends |
| Matches.CapturesIter.Next | crates/regex/src/lib.rs:600-644 | for any engine whose matches lie in the text at or after the search's start: ends, and yields exactly the next of the items that searching on from each match gives, or the search's own error; the budget never grows |
| Matches.CollectAll | crates/regex/src/lib.rs:468-487 | draining the iterator ends, with exactly those items and the failure that ends them, if any |
| Matches.MatchesAreOrdered | crates/regex/src/lib.rs:600-644 | of any such engine the matches are ordered, do not overlap, and none is empty where an earlier one ended |
| Matches.NoneWithoutFirst | crates/regex/src/lib.rs:489-515 | of any such engine nothing is yielded exactly when the first search finds nothing |
| Matches.IterationIsScan | crates/regex/src/lib.rs:600-644 | of an engine whose matches do not depend on where a search starts, the items are the offset-by-offset scan of the text, or a prefix of it before a failure |
| Matches.NothingIsMissed | crates/regex/src/lib.rs:600-644 | in that scan every match there is was reported, starts inside a reported one, or is empty where one ended |
| Matches.NoneWithoutMatch | crates/regex/src/lib.rs:489-515 | and nothing is reported exactly when nothing matches |
| Matches.ReplaceAll | crates/regex/src/lib.rs:496-515 | of any such engine equals copying the gaps and substituting each match, `None` exactly when there is none, the failure when a search fails |
| Matches.ReplacedLength | crates/regex/src/lib.rs:496-515 | bytes are conserved: the length changes by what the matches held and the replacements hold |
| Matches.ReplacedBySelf | crates/regex/src/lib.rs:496-515 | replacing matches that read as the replacement changes nothing |
| PathText.FindQuotedEnd | crates/core/src/path.rs:348-362 | the scan finds the offset past the closing quote, escapes skipped |
| PathText.ResolveEscapes | crates/core/src/path.rs:434-460 | the loop resolves the escapes of a quoted segment or finds the bad one |
| PathText.SplitSegments | crates/core/src/path.rs:364-432 | the loop splits a path as the specification does, errors included |
| PathText.UnescapeEscape | crates/core/src/path.rs:222-228 | quoting then resolving gives the segment back |
| PathText.SegmentsOfDotted | crates/core/src/path.rs:364-432 | printed segments split back into themselves |
| PathText.MetaRoundTrip | crates/core/src/path.rs:552-588 | a meta path survives printing and parsing |
| PathText.ParseDisplay | crates/core/src/path.rs:669-690 | `parse(display(p)) == p` for every path with non-empty segments, a payload root spelled `meta` included |
| PathText.ParsedIsDisplayable | crates/core/src/path.rs:364-432 | every path that parses has non-empty segments, so the round trip covers all parsed paths |
| PathText.SegmentsAreSpelled | crates/core/src/path.rs:364-460 | whatever parses spells its segments, each a run of letters, digits, `_` and `-` or a quoted text with its escapes, with one dot between them and nothing else |
| PathText.OneBareSegment | crates/core/src/path.rs:201-207 | a text without dots, brackets and quotes is one segment exactly when it holds only such characters; else its first other character is refused |
| PathText.MalformedSegments | crates/core/src/path.rs:364-432 | a dot with nothing before it, an empty quoted segment, an open quote and a bracket are refused, each with its error |
| PathText.ParseMeans | crates/core/src/path.rs:552-588 | what a text names: the whole record, one of four values under `meta`, or segments in the record, a leading dot making `meta` a key |
| PathWalk.PositionInjective | crates/core/src/path.rs:211-219 | two segments name one list item only if they are the same text |
| PathWalk.ItemsHaveNames | crates/core/src/path.rs:211-219 | every list item is read, written and removed under its index in decimal |
| PathWalk.OnlyIndicesName | crates/core/src/path.rs:468-503 | and no other segment names an item: it reads as absent, and a write puts an object in the list's place |
| PathWalk.Record.Write | crates/core/src/path.rs:505-517 | the loop of `slot` steps writes as the specification does |
| PathWalk.Record.Read | crates/core/src/path.rs:469-481 | the loop reads as the specification does |
| PathWalk.Record.Remove | crates/core/src/path.rs:519-542 | hands back what was there and removes it, or changes nothing |
| PathWalk.ReadAfterWrite | crates/core/src/path.rs:505-517 | reading after a write gives the written value |
| PathWalk.ReadBelowWrite | crates/core/src/path.rs:505-517 | below a written path stands what the written value holds there |
| PathWalk.ReadOnTheWay | crates/core/src/path.rs:483-517 | what lies on a write's way changes exactly by the rest of the write |
| PathWalk.WriteTwice | crates/core/src/path.rs:505-517 | a second write at one path wins |
| PathWalk.WriteFrame | crates/core/src/path.rs:483-517 | a write leaves a diverging path as it was unless they part at a list with no item of that name, and then it reads as absent |
| PathWalk.WriteDisturbs | crates/core/src/path.rs:483-517 | a diverging read changes exactly when it read something and that list is replaced |
| PathWalk.ReadParentAfterRemove | crates/core/src/path.rs:519-542 | after a removal the parent is found without the child |
| PathWalk.RemoveFrame | crates/core/src/path.rs:519-542 | a removal leaves a diverging path as it was, later items of the same list apart |
| PathWalk.DroppedShifts | crates/core/src/path.rs:519-542 | those later items move down by one |
| Edit.Apply | crates/stages/src/edit.rs:345-403 | one op in place; the record is unchanged when it does not apply |
| Edit.Process | crates/stages/src/edit.rs:430-443 | all ops in order, or the drop on the first that does not apply |
| Edit.RenameMoves | crates/stages/src/edit.rs:355-371 | a rename applies exactly when its source holds something but null, and then `to` reads what the source read, even when one path lies under the other |
| Edit.RenameLeavesSourceEmpty | crates/stages/src/edit.rs:355-371 | and between diverging object keys the source reads as absent |
| Edit.CopyKeepsSource | crates/stages/src/edit.rs:372-377 | a copy keeps what it read in place unless it replaces the list they part at |
| Lexer.LexPathRest | crates/core/src/condition.rs:418-452 | the loop finds the end of a path, quotes and brackets honoured, or an open quote |
| Lexer.LexString | crates/core/src/condition.rs:479-500 | the loop reads a quoted string with its escapes, or reports it unterminated |
| Lexer.Lex | crates/core/src/condition.rs:304-412 | the whole lexer computes the specified tokens, or the first error with its offset |
| TokenText.WrittenLexes | crates/core/src/condition.rs:304-412 | every layout of a list of tokens lexes to them: operators, brackets, words, paths, integers with leading zeros, floats the reader knows, strings in either quote with any escapes, any blanks, and none where tokens cannot run together |
| TokenText.LexedIsWritten | crates/core/src/condition.rs:304-412 | and whatever lexes spells its tokens so, with blanks between them and nothing else |
| TokenText.IntegerOfText | crates/core/src/condition.rs:357-372 | a whole number is an integer token exactly when it fits 128 signed bits |
| ConditionText.RecordPathIsOneToken | crates/core/src/condition.rs:352-355 | any record path in leading-dot form before a space is one token of exactly that text |
| ConditionText.RecordTokenReadsBack | crates/core/src/path.rs:552-588 | which the path parser reads back as the path |
| ConditionText.RecordComparisonParses | crates/core/src/condition.rs:152-160 | so a comparison written with any record path parses to that comparison |
| ConditionText.ConditionReads | crates/core/src/condition.rs:152-160 | every well-formed condition, written with no more brackets than precedence asks for and laid out anyhow, parses to itself |
| ConditionText.ParsedIsWritten | crates/core/src/condition.rs:3-12 | whatever parses is well formed, and its text spells the tokens of its derivation |
| ConditionText.LiteralIsWritten | crates/core/src/condition.rs:592-606 | a literal is taken from just the token written for it |
| ConditionText.MalformedComparison | crates/core/src/condition.rs:553-606 | why tokens are no comparison: the first of the three that does not fit, a path that does not parse, tokens that end too soon, or a pattern operator without a string |
| ConditionText.UnclosedBracket | crates/core/src/condition.rs:553-565 | nothing at all, and any condition behind a bracket that is not closed, end too soon |
| ConditionText.FieldReads | crates/core/src/condition.rs:566-570 | a path in leading-dot form, as a bare word or under `meta` is read as that field |
| ConditionParser.Parser.ParseOrHere | crates/core/src/condition.rs:525-533 | moving a position along the tokens computes what the function form says |
| ConditionParser.Parser.ParseAndHere | crates/core/src/condition.rs:535-543 | likewise for `and` |
| ConditionParser.Parser.ParseNotHere | crates/core/src/condition.rs:545-551 | likewise for `not` |
| ConditionParser.Parser.ParsePrimaryHere | crates/core/src/condition.rs:553-605 | likewise for brackets and comparisons, with their errors |
| ConditionParser.ParseCondition | crates/core/src/condition.rs:152-160 | a condition and nothing after it |
| ConditionParser.ParsesExactlyTheGrammar | crates/core/src/condition.rs:3-12 | the parser accepts exactly the token lists the grammar derives and returns the tree it gives them, folded left, `not` before `and` before `or` |
| ConditionParser.GrammarIsUnambiguous | crates/core/src/condition.rs:3-12 | a token list has at most one tree |
| ConditionParser.RefusedIsUnderivable | crates/core/src/condition.rs:525-605 | a refusal means that no tree fits |
| Condition.EvaluationIsMeaning | crates/core/src/condition.rs:205-238 | for an engine that always answers, short-circuit evaluation is the Boolean meaning of the tree |
| Condition.TextOrderIsDictionaryOrder | crates/core/src/condition.rs:265-272 | the comparison of strings is dictionary order |
| Condition.ExactlyOneOrder | crates/core/src/condition.rs:241-272 | of two comparable values exactly one order holds; on others only `!=` does, nulls and booleans apart |
| Condition.EqualityMeans | crates/core/src/condition.rs:254-263 | equality with a literal, path by path: the record's own values, a missing one as null, lists and objects equal to none, and the four values under `meta` |
| Condition.AsksOnlyListedPatterns | crates/core/src/condition.rs:162-238 | only listed patterns are asked for, and an error is the answer to the last question |
| Condition.CompilePatterns | crates/stages/src/condition.rs:32-54 | one entry for each distinct pattern, or the first refusal in tree order |
| Condition.TableNeverMisses | crates/stages/src/condition.rs:59-65 | every lookup finds an entry, so the table gives the engines' own evaluation |
| Condition.MatchesIsMeaning | crates/stages/src/condition.rs:59-65 | with engines that do not fail a stage's answer is the condition's meaning |
| LuaTables.ListLen | crates/lua/src/convert.rs:129-156 | the loop over a table's pairs computes its length as a list, or why it is none |
| LuaTables.ListLengthIsExact | crates/lua/src/convert.rs:129-156 | the length is `n` exactly when the keys are the positions `1..n`, in whatever order they are visited |
| LuaTables.ShapeMeans | crates/lua/src/convert.rs:345-356 | an unmarked table with an item at 1 reads as a list and one without positions as an object; a mark settles it otherwise |
| LuaTables.SequenceHasOneBorder | crates/lua/src/convert.rs:129-156 | a table that holds just the positions `1..n` has the length `n` |
| LuaCrossing.Lua.JsonToLua | crates/lua/src/convert.rs:97-125 | fills tables for any JSON value, appended to the heap, lists marked, nulls kept as `json.null` |
| LuaCrossing.TextBytesAreUtf8 | crates/lua/src/convert.rs:268-275 | the bytes charged for a string are those of its UTF-8 encoding |
| LuaCrossing.Lua.RecordToLua | crates/lua/src/convert.rs:64-66 | the same with the top table marked as a record of its shape |
| LuaReader.Reader.ReadJson | crates/lua/src/convert.rs:254-294 | reads any heap, shared or circular tables included, as the specification does, charging strings and counting depth; it ends |
| LuaReader.Reader.Entries | crates/lua/src/convert.rs:202-223 | the object reader, in any order of pairs |
| LuaReader.Reader.Items | crates/lua/src/convert.rs:238-252 | the list reader |
| LuaRoundTrip.UntouchedRecord | crates/lua/src/convert.rs:5-14 | a record left alone is read back, integers beyond 63 bits as floats, exactly when it nests at most 128 tables and its value strings fit the cap; else refused |
| LuaRoundTrip.RecordSurvives | crates/lua/src/convert.rs:5-14 | it comes back as it went exactly when also every integer fits `i64`; empty lists stay lists, nulls stay nulls |
| LuaRoundTrip.Cross | crates/lua/src/convert.rs:297-310 | the two conversions run one after the other do just that |
| LuaRoundTrip.TooDeepIsRefused | crates/lua/src/convert.rs:158-163 | a chain of more than 128 tables is refused, whatever else they hold |
| LuaRoundTrip.CircleIsRefused | crates/lua/src/convert.rs:158-163 | a table that contains itself is refused, and reading it ends |
| SplitMix.SplitMix64.Next | crates/harness/src/plan.rs:175-185 | a step of the generator: the next of the numbers its seed gives |
| SplitMix.SeedOneStartsHigh | crates/harness/src/plan.rs:175-191 | of seed 1 the first seven fractions are at least an eighth |
| Plan.MakePlan | crates/harness/src/plan.rs:89-173 | refuses for the first flag at fault, else returns the run of all slots under the draws of the seed |
| Plan.RefusedExactlyFor | crates/harness/src/plan.rs:89-130 | when a plan is refused, in the flags' own terms: the first of no rate, more than half duplicates, 2^22 messages or more, no sets, an empty set, a shortest set that comes round before the window and 1.5 s are over, duplicates at fewer than four messages a second |
| Plan.SetupMeans | crates/harness/src/plan.rs:110-131 | `half` is a quarter of the rate, rounded down, and the chance of a duplicate after an original makes duplicates their share of all messages |
| Plan.Schedule | crates/harness/src/plan.rs:133-172 | the loop with its ordered map and its generator computes the run |
| Plan.SeededRunIsRun | crates/harness/src/plan.rs:133-191 | a seed's run is one of the runs the rows below speak of, with draws asked for only by the slots that toss |
| Plan.PendingIsBounded | crates/harness/src/plan.rs:124-169 | at most `half` duplicates are ever pending, and one that is due leaves within `half` slots |
| Plan.DuplicateIsPromptAndOnly | crates/harness/src/plan.rs:124-171 | every duplicate repeats the set, line and cycle of one earlier original, less than `2 * half` slots and 500 ms behind it, and no other does |
| Plan.OriginalsAreDealtInRounds | crates/harness/src/plan.rs:152-165 | the `j`-th original carries line `j / sets` of set `j % sets`, modulo the set's length |
| Plan.BodiesAreSpaced | crates/harness/src/plan.rs:152-165 | two originals of one body are at least `lens[set] * sets` slots apart |
| Plan.BodiesAreNeverEarlier | crates/harness/src/plan.rs:116-123 | in every accepted plan they are `1 - share` of the needed time apart, whatever the draws |
| Plan.SlotOfOriginal | crates/harness/src/plan.rs:124-169 | where half of all messages are duplicates, an original is sent at twice its ordinal or up to `half - 1` slots sooner |
| Plan.NeededTimeIsKeptExactlyWhen | crates/harness/src/plan.rs:89-123 | an accepted plan keeps the whole needed time under every sequence of draws exactly when each set that comes round takes it at its fastest: its cycle without duplicates or, at 50 %, twice its cycle less `half - 1` slots |
| Plan.AcceptedPlanKeepsTime | crates/harness/src/plan.rs:89-191 | where that condition holds, the messages an accepted plan returns keep the whole needed time, whatever its seed |
| Plan.AcceptedPlanRepeatsEarly | crates/harness/src/plan.rs:89-191 | a concrete accepted plan, seed included, in which a body is back too early |
| Plan.HalfShareRepeatsEarly | crates/harness/src/plan.rs:89-191 | and one at 50 %: with seed 2 a set comes round in 19 slots where 20 are needed |
| SplitMix.SeedTwoParities | crates/harness/src/plan.rs:175-191 | which of seed 2's numbers that decide those delays are odd |
| Verdict.IndexById | crates/harness/src/verdict.rs:283 | expectations by id, the last of two with one id staying |
| Verdict.Tally.Take | crates/harness/src/verdict.rs:293-344 | one message: counters, maps and comparisons end as the counts over all messages so far |
| Verdict.GroupExpectations | crates/harness/src/verdict.rs:347-355 | groups with their first expectation's subjects, size and planned drops |
| Verdict.AddGroup | crates/harness/src/verdict.rs:356-389 | what one group adds to the report |
| Verdict.JudgeWhere | crates/harness/src/verdict.rs:273-406 | the loops compute a judgement made of counts and sets alone, but for the comparisons of first copies |
| Verdict.JudgeSoFar | crates/harness/src/verdict.rs:408-422 | equals the judgement of the messages not waiting for an expectation |
| VerdictLaws.EveryMessageIsAccountedFor | crates/harness/src/verdict.rs:163-165 | written plus dead messages are reached + extra copies + unexpected + dead-lettered |
| VerdictLaws.NothingMissing | crates/harness/src/verdict.rs:356-368 | nothing is missing exactly when some copy of every group reached each of its subjects |
| VerdictLaws.PassedMeans | crates/harness/src/verdict.rs:167-177 | a run passes exactly when every group reached each of its subjects, every message was expected, no group's first copy fails the `edit` or `lua` comparison, nothing was dead-lettered and enough planned duplicates were dropped |
| VerdictLaws.DropsWithinPlan | crates/harness/src/verdict.rs:381-388 | no more duplicates count as dropped than were planned |
| VerdictLaws.OrderDoesNotMatter | crates/harness/src/verdict.rs:273-406 | every count but the first-copy comparisons is the same in any order of messages and dead letters |
| VerdictLaws.FirstCopyDecides | crates/harness/src/verdict.rs:328-343 | and the comparisons do depend on the order |
| VerdictLaws.SoFarDiffersByWaiting | crates/harness/src/verdict.rs:408-422 | the full judgement is the judgement so far with the waiting messages added to unexpected, and nothing else |
| VerdictLaws.CaughtUp | crates/harness/src/verdict.rs:408-422 | the two are one once every readable id is published |
| VerdictMeaning.MatchedMeans | crates/harness/src/verdict.rs:294-317 | a message meets an expectation exactly when its id spells the last expectation of that id, on one of its subjects and under its tenant |
| VerdictMeaning.JudgementMeans | crates/harness/src/verdict.rs:110-151 | every number of a report but the two of planned duplicates is the size of a set of messages, ids, groups or pairs named by the messages and expectations alone |
| VerdictMeaning.GroupDropsMean | crates/harness/src/verdict.rs:372-388 | the drops of a group are as many of the planned ones as copies did not reach its first subject, the one meant to arrive apart |
| Subject.Captures | crates/nats/src/subject.rs:55-71 | the loop over both token iterators computes the match |
| Subject.CapturedMeans | crates/nats/src/subject.rs:55-71 | token by token, `*` fitting any token and a last `>` one or more |
| Subject.DeadLetter | crates/nats/src/subject.rs:32-45 | the byte loop computes the dead-letter subject |
| Subject.BytesOfToken | crates/nats/src/subject.rs:27-45 | printable ASCII but `.`, `*`, `>` and `%` is kept, every other byte is a percent sign and two upper-case hexadecimal digits |
| Subject.TokenIsOneToken | crates/nats/src/subject.rs:27-45 | a tenant is one token without dots or wildcards, empty only for the empty tenant |
| Subject.DeadLettersDistinct | crates/nats/src/subject.rs:27-45 | no two tenants share a dead-letter subject |
| Subject.CoversExactlyEveryTenant | crates/nats/src/subject.rs:47-53 | asking about `{prefix}.*` answers exactly for all non-empty tenants |
| Subject.NamedTenantIsOneToken | crates/nats/src/subject.rs:16-25 | whatever a subject names as its tenant is one non-empty token |
| Subject.NamesTenant | crates/nats/src/subject.rs:16-25 | a subject names a tenant exactly when it is the prefix, one token that is not empty, and a token or more after that |

## Left out

- Lint rules 1 and 3, and offsets into the desugared pattern: heuristics without a guarantee to prove.
- The PCRE2 binding, the linear engine, the canary and compilation: `Matches` takes any engine whose matches lie in the text at or after the start of the search; capture groups other than the whole match are not kept.
- NATS, JetStream, Redis, OTLP and process metrics: I/O; only the settlement decisions and atomic store steps are modelled.
- Two deliveries of one message in flight at once, and two dedupe nodes on one message: `DedupeRuns` takes one of each.
- Window and ttl texts, YAML parameters, duplicate or malformed node ids and malformed route parameters: refused while the configuration is read.
- Error texts and their hints, metric labels, log events and span times.
- Engine.Walker.RunNode: counts copies and visits but does not measure stage durations, and a thread's panic is a walk cut short.
- Hash.SpanIdsDistinct: the FNV hash of the tenant is a parameter, and visits are machine words there and naturals in `Trace`; `TraceIds` takes any conversion that keeps the numbers below 2^32 apart.
- PathWalk.Record.Write: the record is one value that the walk takes apart and rebuilds, so aliasing inside a JSON tree is not expressed.
- Floating point: floats and rates are real numbers, so rounding, infinite literals, and integers compared with floats beyond 2^53 are not expressed; the float of a large integer in Lua is a parameter.
- Condition.EvaluationIsMeaning: the regex engine answers as a function of pattern and text.
- Lexer.Lex: which texts are floats is a parameter, and offsets count characters.
- Store.MemoryStateStore.PerformAll: the test hooks that run a closure between an answer and its caller, and locking, are not modelled; each operation is one atomic step.
- Keys.HandlesAreIndependent: state metrics of a handle are not modelled.
- Plan.MakePlan: `base | i` is written `base + i`, which is the same for the bases the producer uses.
- Verdict.JudgeWhere: examples for the summary and the per-set extraction report, which gates nothing, are not modelled; groups are visited in the order of their first expectation.
- VerdictLaws.EveryMessageIsAccountedFor: holds when groups agree on subjects without repeats, as the expectations written by the producer do; it does not need unique ids.
- The Lua VM, its sandbox and budgets, `record:copy()` and `meta`: a foreign runtime; only the conversion and its marks are modelled.
- Edit.Apply: the text a `hash` digests is a parameter.
