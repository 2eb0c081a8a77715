# logifix exploration engine, in Dafny

This project models the rewrite-exploration engine of logifix (`src/logifix.cpp`)
and the AST descent `repair::get_hovered_node` (`repair.cpp`).

The engine starts from seed source files. For each text it reaches, it asks an
analyzer for rewrites. Every distinct text is interned in a two-way table
between texts and dense ids. Each worker iteration does three things:

- it takes a node from the derived queue `pending_strings` or, when that is
  empty, from the seed queue `pending_files`;
- it records every candidate rewrite in `parent` and `children`;
- it admits a candidate into `taken_transitions`, and onto the back of the derived
  queue, unless applying the same rule directly to the node's parent would
  reproduce a candidate the parent already has.

When exploration is over, `get_recursive_merge_result_for_node` folds the
explored graph back into one text per node. It merges the children's results
with an n-way merge and gives up on a conflict. `get_patches_for_file` reports
one `(rule, result)` pair per candidate child of a seed. The analyzer's tuples
`(rule, start, end, replacement)` become rewritten texts by a splice.

The modules follow that structure:

- `Wrappers`: `Option`.
- `EdgeSet`: `std::set<std::pair<rule_id, node_id>>` as a strictly increasing
  sequence under std::pair / std::string ordering. `emplace` is `Insert`.
- `Nway`: the data the n-way differ works on: tokens, spans and aligned segments,
  with what a merge and a conflict mean.
- `Collaborators`: the analyzer, the lexer and the n-way differ are
  function-valued fields of `Externals`. What the engine relies on is the
  predicate `Contract`:
  - lexing is lossless;
  - a diff's base spans and variant spans concatenate back to its inputs;
  - equal inputs give equal spans;
  - `has_conflict` detects two different changes to one segment;
  - `merge` of a conflict-free diff takes each segment's changed variant.
- `Compose`: the segment-composition loop of the admission check.
- `Exploration`: the engine's globals as one value `State`, and each state change
  of the sequentialised worker as a function of the old state. The invariant
  `Inv` holds that:
  - the store maps are inverse and the ids are dense;
  - every id in the graph and the queues is known;
  - every taken transition is a recorded candidate;
  - each taken set is a std::set;
  - no node takes a transition to itself.
- `Resolver`: the merge resolver and the set of patch origins, over a finished
  exploration.
- `Explorer`: the class `Engine` whose fields are the globals. Its methods change
  them in place and are proved to agree with the `Exploration` functions.
- `Patches`: the splice and the result set of `get_patches`.
- `Repair`: `get_hovered_node` over an AST datatype.
- `UndoCycle`: a concrete input on which the admission check as written lets the
  exploration cycle (see Findings).
- `OrderedAdmission`: a corrected admission that refuses candidates not newer than
  the current node, with the proof that `taken_transitions` then stays acyclic.

The composed text takes, for every aligned segment, the parent's span where the
current node's and the candidate's spans are equal, and the candidate's span
otherwise. It never calls the n-way merge and never falls back on a conflict
(src/logifix.cpp:221-233).

## Model

| member | source | states |
|---|---|---|
| EdgeSet.Insert | src/logifix.cpp:245-246 | `emplace` into a taken set: the result holds exactly the old elements and the new pair, and grows by one when the pair was absent; that a present pair leaves a sorted set unchanged is `EdgeSet.InsertSorted` |
| EdgeSet.InsertSorted | src/logifix.cpp:62-63 | `emplace` keeps the set ordered and duplicate-free, and re-inserting a present pair changes nothing |
| Collaborators.MergeIdentical | src/logifix.cpp:104-111 | an n-way merge of variants that are all the same text has no conflict and yields that text |
| Collaborators.MergeNothing | src/logifix.cpp:104-111 | an n-way merge against no variant has no conflict and yields the base text |
| Compose.ComposeSegments | src/logifix.cpp:220-233 | the `result +=` loop over segments and tokens builds exactly `Composed(d)`, the concatenation of each segment's piece |
| Compose.ComposedAgreeing | src/logifix.cpp:221-233 | where the two variants agree on every segment, the composition is the base's token stream |
| Compose.ComposedOverUnchanged | src/logifix.cpp:221-233 | where the first variant equals the base on every segment, the composition is the second variant's token stream |
| Compose.AdmissionDiffTwoWay | src/logifix.cpp:217-223 | the admission diff gives every segment the two candidate spans `cands[0]` and `cands[1]` the loop reads |
| Compose.ComposeRepeat | src/logifix.cpp:217-233 | a candidate whose text equals the current node's composes back to the parent's text |
| Compose.ComposeOverUnchanged | src/logifix.cpp:217-233 | when the current node's text is the parent's, the composition is the candidate's text |
| Compose.Composed | src/logifix.cpp:221-233 | the composition loop's result: segment by segment, the parent's tokens where the two candidate spans are equal and the second candidate's tokens otherwise |
| Exploration.InitialInv | src/logifix.cpp:48-63 | the empty globals satisfy the engine invariant |
| Exploration.Intern | src/logifix.cpp:65-73 | `string_to_node_id`: afterwards the text maps to the returned id; a known text returns its old id and changes nothing; a new text gets the id equal to the number of texts already interned; nothing but the two store maps changes; the store only grows |
| Exploration.InternRoundTrip | src/logifix.cpp:65-73 | interning keeps the store consistent, the returned id reads back as the text, and a new id was unused before |
| Exploration.InternIdempotent | src/logifix.cpp:66-67 | interning the same text twice returns the same id and the second call changes nothing |
| Exploration.InternInjective | src/logifix.cpp:65-73 | two texts receive the same id only if they are the same text |
| Exploration.InternKeepsInv | src/logifix.cpp:65-73 | interning preserves the engine invariant |
| Exploration.AddFile | src/logifix.cpp:75-79 | `add_file` interns the text and puts its id at the front of `pending_files` |
| Exploration.AddFileKeepsInv | src/logifix.cpp:75-79 | `add_file` preserves the invariant, and the queued id reads back as the file's text |
| Exploration.Acquire | src/logifix.cpp:182-190 | there is no work exactly when both queues are empty; otherwise the taken id and the two remaining queues hold exactly the ids queued before, `pending_files` is untouched while derived work is pending, and nothing else changes |
| Exploration.LastSeedFirst | src/logifix.cpp:182-185 | with no derived work pending, the seed added last is the first one taken and the other seeds stay queued |
| Exploration.DerivedFifo | src/logifix.cpp:186-189 | derived work is first in, first out: ids appended behind a non-empty queue come out after it |
| Exploration.AcquireKeepsInv | src/logifix.cpp:182-190 | acquiring work preserves the invariant and yields a known node |
| Exploration.Record | src/logifix.cpp:199-204 | the recording loop yields one `next_nodes` entry per rewrite, with that rewrite's rule, and leaves both queues and `taken_transitions` alone |
| Exploration.RecordOne | src/logifix.cpp:199-203 | one recording pass interns the rewritten text and yields the id `string_to_node_id` gives it; `parent[id]` becomes `(rule, current)` and `id` joins `children[current][rule]` |
| Exploration.RecordOneKids | src/logifix.cpp:202 | one recording pass adds the new id to `children[current][rule]` and to no other candidate set |
| Exploration.RecordOneKeepsInv | src/logifix.cpp:199-203 | one recording pass preserves the invariant, only grows the store, and its id reads back as the rewritten text |
| Exploration.RecordKeepsInv | src/logifix.cpp:197-205 | the recording loop preserves the invariant and only grows the store |
| Exploration.RecordKids | src/logifix.cpp:199-204 | recording only adds candidates, and only to `children[current]` |
| Exploration.RecordStore | src/logifix.cpp:199-200 | recording keeps the store consistent and only grows it |
| Exploration.RecordCandidate | src/logifix.cpp:199-203 | the id recorded for the i-th rewrite is known and its text is that rewrite's text |
| Exploration.RecordCandidateKid | src/logifix.cpp:202 | the id recorded for the i-th rewrite is in `children[current][rule]` for that rewrite's rule |
| Exploration.RecordKidsProduced | src/logifix.cpp:199-204 | `children[current][rule]` gains exactly the ids the loop produced under `rule` |
| Exploration.RecordParents | src/logifix.cpp:199-201 | every recorded id's `parent` is `(rule, current)` from the last rewrite that produced it; earlier parents are overwritten |
| Exploration.RecordParentsElsewhere | src/logifix.cpp:199-201 | the parent of a node that recording did not produce is unchanged |
| Exploration.RecordSelfRewrite | src/logifix.cpp:199-210 | a rewrite back to the current node's own text makes the node its own parent before the admission check reads `parent` |
| Exploration.ComposedFor | src/logifix.cpp:213-233 | the text the admission check builds for a candidate: the three texts are lexed, diffed against the parent's, and composed segment by segment |
| Exploration.Admits | src/logifix.cpp:236-241 | the admission verdict: taken when the node has no parent, or when the composed text is not the text of a candidate the parent recorded under the same rule |
| Exploration.Take | src/logifix.cpp:243-247 | taking a transition appends `next` to `pending_strings` and emplaces `(rule, next)` into `taken_transitions[current]` |
| Exploration.AdmitOne | src/logifix.cpp:209-247 | one admission pass either takes the candidate or leaves queue and taken set as they were; it changes neither `parent`, `children`, `pending_files` nor any other node's taken set, and only grows the store |
| Exploration.AdmitOneDecision | src/logifix.cpp:209-247 | the candidate is taken exactly when the node has no parent or the composed text is not the text of a recorded candidate of the parent under the same rule; otherwise neither the queue nor the taken set changes |
| Exploration.Admit | src/logifix.cpp:207-248 | the admission loop changes neither `parent`, `children`, `pending_files` nor any other node's taken set, and only grows the store |
| Exploration.AdmitsStable | src/logifix.cpp:236-241 | the admission verdict does not change while only the store grows |
| Exploration.AdmitKnown | src/logifix.cpp:243-247 | admission only queues known ids |
| Exploration.AdmitQueue | src/logifix.cpp:243-244 | `pending_strings` gains exactly the admitted ids, appended in `next_nodes` order |
| Exploration.AdmitTaken | src/logifix.cpp:243-247 | `taken_transitions[current]` becomes exactly the old set plus the admitted pairs |
| Exploration.SelfNotAdmitted | src/logifix.cpp:210-241 | a node that recording made its own parent never admits itself |
| Exploration.AdmittedEdgeSound | src/logifix.cpp:238-247 | every admitted pair is a recorded candidate of the current node and is not a self-loop |
| Exploration.AdmitTakenSound | src/logifix.cpp:207-247 | after admission every taken transition is still a recorded candidate, and none is a self-loop |
| Exploration.AdmitKeepsInv | src/logifix.cpp:207-248 | admission after recording preserves the invariant |
| Exploration.AdmitCurrentSorted | src/logifix.cpp:245-246 | the admission loop keeps `taken_transitions[current]` a std::set |
| Exploration.AdmitSorted | src/logifix.cpp:245-246 | admission keeps every taken set a std::set |
| Exploration.Step | src/logifix.cpp:159-248 | one worker iteration finds work exactly when a queue is non-empty |
| Exploration.StepKeepsInv | src/logifix.cpp:159-248 | one worker iteration preserves the invariant |
| Exploration.StepRecords | src/logifix.cpp:197-204 | after an iteration each rewrite's text is the text of a candidate child of the processed node under that rewrite's rule |
| Exploration.RunStuck | src/logifix.cpp:165-181 | once both queues are empty, further iterations change nothing |
| Exploration.Iterate | src/logifix.cpp:153-258 | up to `n` worker turns, stopping at the first turn that finds no work |
| Exploration.Run | src/logifix.cpp:153-258 | the sequentialised worker pool: worker iterations until both queues are empty, bounded by `fuel` |
| Exploration.RunKeepsInv | src/logifix.cpp:157-252 | the sequentialised run preserves the invariant |
| Resolver.Survivors | src/logifix.cpp:96-102 | `to_be_merged` has at most one text per taken transition |
| Resolver.SurvivorsSound | src/logifix.cpp:96-102 | every text in `to_be_merged` is the result of some taken transition |
| Resolver.SurvivorsComplete | src/logifix.cpp:96-102 | every taken transition whose result exists contributes it to `to_be_merged` |
| Resolver.SurvivorsUniform | src/logifix.cpp:96-102 | when every transition resolves to the same text, none is dropped and all equal that text |
| Resolver.SurvivorsNone | src/logifix.cpp:96-102 | when every transition fails, `to_be_merged` is empty |
| Resolver.Resolve | src/logifix.cpp:81-111 | `get_recursive_merge_result_for_node`: a node without transitions gives its text, a single transition gives its child's result, and several give the n-way merge of the surviving children's results against the node's text, or nothing on a conflict |
| Resolver.ResolveUnanimous | src/logifix.cpp:94-111 | a branching node whose children all resolve to one text resolves to that text |
| Resolver.ResolveAllFailed | src/logifix.cpp:94-111 | a branching node whose children all fail resolves to its own text |
| Resolver.ResolveConflictFree | src/logifix.cpp:104-111 | a result for a branching node comes from a conflict-free diff and is its n-way merge |
| Resolver.ChainEnd | src/logifix.cpp:84-92 | following single transitions ends at a node with no transition or with several |
| Resolver.ResolveChain | src/logifix.cpp:81-92 | in an exploration that never branched, the result is the text at the end of the chain |
| Explorer.Engine.constructor | src/logifix.cpp:48-63 | the globals start empty and satisfy the invariant |
| Explorer.Engine.StringToNodeId | src/logifix.cpp:65-73 | updates the fields in place exactly as `Exploration.Intern` |
| Explorer.Engine.AddFile | src/logifix.cpp:75-79 | updates the fields in place exactly as `Exploration.AddFile` |
| Explorer.Engine.AcquireWork | src/logifix.cpp:163-191 | pops the queues in place exactly as `Exploration.Acquire`, and changes nothing when there is no work |
| Explorer.Engine.RecordRewrites | src/logifix.cpp:196-205 | the recording loop updates the fields and builds `next_nodes` exactly as `Exploration.Record` |
| Explorer.Engine.AdmitCandidates | src/logifix.cpp:207-248 | the admission loop, with the composition loop and interning inside it, updates the fields exactly as `Exploration.Admit` |
| Explorer.Engine.Step | src/logifix.cpp:159-252 | one worker iteration reports work exactly when `Exploration.Step` finds some, and then leaves its state |
| Explorer.Engine.Run | src/logifix.cpp:153-258 | the worker loop keeps the invariant and ends in the state of `Exploration.Run` |
| Explorer.Engine.GetRecursiveMergeResult | src/logifix.cpp:81-112 | the recursive resolver, with its `to_be_merged` loop, returns `Resolver.Resolve` for the node |
| Explorer.Engine.GetPatchesForFile | src/logifix.cpp:114-128 | interns the file and returns one pair per candidate child, under every rule, whose result exists, each paired with that result; no candidate is reported twice |
| Patches.PatchSet | src/logifix.cpp:306-320 | the set `rewrites` after the extraction loop: one `(rule, spliced text)` entry per tuple, or nothing when a splice throws |
| Patches.PrefixLength | src/logifix.cpp:318 | `substr(0, start)` keeps at most the whole source, and exactly `start` bytes when `start` is in range |
| Patches.Splice | src/logifix.cpp:318-319 | the splice throws exactly when `end` is negative or past the end of the source |
| Patches.SpliceKeepsOutside | src/logifix.cpp:318-319 | on a well-formed range the splice keeps the source before `start` and from `end` on, puts the replacement in between, and has the length that implies |
| Patches.SpliceSameText | src/logifix.cpp:318-319 | replacing a range by its own content gives the source back |
| Patches.SpliceNegativeStart | src/logifix.cpp:312-319 | a negative `start` keeps the whole source before the replacement |
| Patches.GetPatches | src/logifix.cpp:305-320 | the extraction loop builds `PatchSet`, or throws |
| Patches.PatchSetFails | src/logifix.cpp:318-319 | one tuple whose splice throws makes the extraction throw |
| Patches.PatchSetSucceeds | src/logifix.cpp:308-320 | the extraction succeeds when every tuple's splice does |
| Patches.PatchSetSound | src/logifix.cpp:306-320 | every entry of the result set is the rule and spliced text of some tuple |
| Patches.PatchSetComplete | src/logifix.cpp:308-320 | every tuple's rule and spliced text is in the result set |
| Patches.PatchSetSize | src/logifix.cpp:306-320 | the result set has at most one entry per tuple |
| Patches.DuplicatesCollapse | src/logifix.cpp:306-319 | two tuples with the same rule and the same spliced text give one entry |
| Repair.ScanOrder | repair.cpp:133-147 | the children the loop visits, singles first and then every list in order, are all proper parts of the node |
| Repair.LastCovering | repair.cpp:132-148 | the candidate is a visited child whose range contains the position; none exists exactly when no non-null child's range contains it |
| Repair.LastCoveringIsLast | repair.cpp:132-148 | of several matching children the last one scanned wins |
| Repair.Hovered | repair.cpp:131-152 | the descent ends on the root or a node below it, on the root or a node whose range contains the position, and on a node none of whose non-null children contains it |
| Repair.HoveredStable | repair.cpp:149-152 | descending again from the hovered node stays on it |
| Repair.ScanChildren | repair.cpp:133-139 | one scan over a run of children replaces the candidate by the last matching child, if any |
| Repair.ScanNode | repair.cpp:132-148 | the loop body's two scans give the candidate `Repair.Candidate`: a list child overrides a single child |
| Repair.GetHoveredNode | repair.cpp:127-153 | a null root comes back null; otherwise the loop returns `Repair.Hovered` of the root |
| UndoCycle.UndoTaken | src/logifix.cpp:209-247 | with rules A: "x" to "y" and B: "y" to "x", node 1's undo composes against its parent to "x", which the parent has no candidate for under B, so `(B, 0)` is taken |
| UndoCycle.UndoCycleRepeats | src/logifix.cpp:236-247 | with collaborators meeting `Collaborators.Contract`, the seed "x" reaches in two iterations a state whose taken transitions form the cycle 0 -A-> 1 -B-> 0; two more iterations return to it with work still queued, and no rank orders its transitions |
| UndoCycle.OrderedUndoRefused | src/logifix.cpp:236-247 | on the same input the corrected engine's first iteration is as written, the undo back to node 0 is refused, and the queues are then empty with the single transition 0 -A-> 1 |
| OrderedAdmission.AdmitOneOrdered | src/logifix.cpp:207-247 | corrected admission pass: either the queue and the taken set of `current` are unchanged, or the candidate is newer than `current` and is taken; no other node's taken set changes, and the store only grows |
| OrderedAdmission.StepOrdered | src/logifix.cpp:159-248 | a corrected worker iteration finds work exactly when a queue is non-empty |
| OrderedAdmission.AdmitOneOrderedKeeps | src/logifix.cpp:236-247 | a corrected admission pass keeps every taken transition leading to a newer, known node |
| OrderedAdmission.AdmitOrderedKeeps | src/logifix.cpp:207-247 | the corrected admission loop keeps every taken transition leading to a newer, known node, and only grows the store |
| OrderedAdmission.StepOrderedKeeps | src/logifix.cpp:159-248 | a corrected worker iteration keeps every taken transition leading to a newer, known node |
| OrderedAdmission.ForwardRanked | src/logifix.cpp:84-92 | when every taken transition leads to a newer node, the number of ids handed out after a node is a rank that decreases along every transition, so the resolver is defined |
| OrderedAdmission.AddFileOrdered | src/logifix.cpp:75-79 | `add_file` keeps the corrected invariant |
| OrderedAdmission.RunOrderedRanked | src/logifix.cpp:153-258 | a corrected run keeps the invariant and ends in a state whose taken transitions are ranked |
| OrderedAdmission.SeededRanked | src/logifix.cpp:75-258 | after adding any seeds and any number of corrected iterations, `taken_transitions` is ranked, hence acyclic |

## Left out

- Threads are not modelled: the pool, `work_mutex`, the condition variable, `waiting_threads` and `finished` (src/logifix.cpp:154-181, 251, 255-257). The pool is one sequential loop that stops when both queues are empty.
- The unlock and relock around the admission diff (src/logifix.cpp:216, 234) is a race window with no sequential meaning.
- The analyzer (`get_patches` up to the tuple extraction, src/logifix.cpp:267-316) is opaque: the Soufflé program, javadoc extraction, parsing and relation inserts. `Externals.analyze` is its `(rule, text)` result in set order. `Patches` models only the splice and how the set is built.
- `Patches.GetPatches` takes the derived `rewrite` tuples as a parameter. Their file-name column is dropped. Deleting the program is not modelled, including the leak when `substr` throws.
- `nway::diff`, `nway::has_conflict`, `nway::merge` and `sjp::lex` are opaque functions. Only the properties in `Collaborators.Contract` are assumed. `sjp::lex` is total; the code dereferences its optional result unchecked.
- `report_progress`, the `timer` namespace and `print_performance_metrics` are left out: callbacks, clocks, floating point and printing.
- Most of `repair.cpp` is left out (everything except `get_hovered_node`), as are `repair.hpp` and `src/logifix.h`, which hold only declarations.
- `Repair.GetHoveredNode` takes the root of `get_ast(filename)` as a parameter. The order of each node's child maps is the order of its sequences.
- Text stands for the bytes of a `std::string`: every offset, every length and the `StrLess` order are over bytes, that is characters below 256. Dafny's `string` type is not restricted to them, and nothing in the model depends on more than byte equality and order.
- The insert-on-read of `unordered_map::operator[]` is not modelled: a missing key reads as an empty entry or the empty text.
- Exploration.Step: the analyzer is assumed never to fail. In the source, a tuple whose `end` is negative or past the text makes `substr` throw inside `get_patches` (src/logifix.cpp:318-319). The worker calls `get_patches` without a `try` (src/logifix.cpp:197), so the exception leaves the thread body and `std::terminate` ends the whole run. In the model `Exploration.Step`, `Exploration.Run` and `Explorer.Engine.Step` carry on; the failure that `Patches.PatchSet` reports for such a tuple feeds nothing in the engine.
- Exploration.Run: iterations are bounded by `fuel`, so a run that never drains the queues (see Findings) is only modelled up to that bound. `Explorer.Engine.Run` has the same bound.
- Exploration.ComposedFor: when the diff is not two-way it gives the empty text; the source would read past `cands`. `Collaborators.Contract` rules this case out.
- Explorer.Engine.AdmitCandidates: requires `Collaborators.Contract`, because the composition loop reads `cands[0]` and `cands[1]` of every segment. `Explorer.Engine.Step` and `Explorer.Engine.Run` require it for the same reason.
- The corrected admission of `OrderedAdmission` also refuses transitions to older nodes that are not undos, such as a rewrite into the text of another seed. It is a correction for the cycle, not a claim about the authors' choice. Exploration with it is proved to end only on the undo input: in general the analyzer can keep producing new texts. `Explorer.Engine` keeps the admission as written.
- Resolver.Resolve: requires a rank that decreases along every taken transition. The source assumes without checking that `taken_transitions` is acyclic; on a cycle it would recurse forever, and exploration can build one (see Findings). `Explorer.Engine.GetRecursiveMergeResult` and `Explorer.Engine.GetPatchesForFile` carry the same precondition.
- Explorer.Engine.GetPatchesForFile: the iteration order of `unordered_map` and `unordered_set` is unspecified. The method visits rules and children in an arbitrary order, and its contract fixes the set of reported pairs, not their order.

## Findings

| source | as written | input that shows it | evidently intended | confidence | as-written member | corrected member |
|---|---|---|---|---|---|---|
| src/logifix.cpp:236-247 | the admission check compares the composed text only with the parent's candidates under the same rule, so a rewrite that undoes its parent's rewrite is taken | an analyzer with rule A rewriting "x" to "y" and rule B rewriting "y" to "x", seeded with "x" | `taken_transitions` stays acyclic, so `get_recursive_merge_result_for_node` (84-92) ends at every node; the correction modelled refuses, before the check, every candidate not newer than the current node | not executed | UndoCycle.UndoCycleRepeats | OrderedAdmission.SeededRanked |
