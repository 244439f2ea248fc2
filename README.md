# Utree clustering core in Dafny

Utree reads a tab-separated table of pairwise scores between named
samples. Each line holds a from-name, a to-name and a score. From these scores
it builds a binary tree by agglomerative average-linkage clustering and prints
the tree as Newick text. This project models the three parts of that core and
proves properties of the model:

- **The max-heap** (`MaxHeap`, file `max_heap.dfy`). Class `Heap` keeps its
  entries in a growable buffer `data`. `Insert` and `PopMax` change the buffer
  in place by swaps, and the sift loops are proved against the heap-order
  predicates. Keys are `real`; payloads are opaque.
- **The clustering arena** (`BinaryTree`, `binary_tree.dfy`, resting on
  `Nodes`, `Arena`, `Linkage`, `Members` and `Newick`). Class `BinaryT` has the
  source's fields:
  - the handle-to-node map `ind`;
  - the members-to-handle map `nid`;
  - `allSamples`, `clustered` and `subRoots`;
  - `root`.

  Each of its methods is proved to move the fields to the value that an
  `Arena` function computes from the old state (`MergeState`, `UpdateArena`).
  The arena invariant `Arena.Valid` is proved preserved by those functions.
- **The driver** (`Tokenizer`, `Driver`, `Text`). `strtok`, the ingest loop,
  the pair-count check and the merge loop of `clustering`. The ingest loop is
  specified by functions of the rows read so far (`Ingested`, `Queue`,
  `OrderOf`, `TableOf`). The merge loop keeps a readiness invariant (`Ready`)
  and terminates on the lexicographic measure (active clusters plus
  unclustered leaves, heap size).

Where the source panics, the model returns an `Err` (the `Driver.Error`
datatype) or states the panic as a precondition. Which one is noted per member
below.

When both `table[a][b]` and `table[b][a]` are present, the code's `match`
skips the pair (src/BinaryTree/BinaryTree.rs:326-336); `Linkage.PairValue`
does the same.

## Model

| member | source | states |
|---|---|---|
| MaxHeap.ParentIdx | src/MaxHeap/MaxHeap.rs:8-14 | index 0 has no parent; every other index has a parent below it, of which it is the left or right child |
| MaxHeap.LeftIdx | src/MaxHeap/MaxHeap.rs:16-18 | the left child lies above `idx` and its parent is `idx` |
| MaxHeap.RightIdx | src/MaxHeap/MaxHeap.rs:20-22 | the right child sits right after the left child and its parent is `idx` |
| MaxHeap.Swap | src/MaxHeap/MaxHeap.rs:36 | `data.swap` exchanges the two slots, leaves every other slot alone and keeps the multiset |
| MaxHeap.SiftUpStep | src/MaxHeap/MaxHeap.rs:35-38 | swapping a hole with its smaller parent moves the hole to the parent, keeping every other heap edge |
| MaxHeap.SiftUpDone | src/MaxHeap/MaxHeap.rs:26-28 | stopping at the root, or below a parent whose key is not smaller, leaves a heap |
| MaxHeap.SiftDownStep | src/MaxHeap/MaxHeap.rs:66-75 | swapping a hole with its larger child moves the hole to that child |
| MaxHeap.SiftDownDone | src/MaxHeap/MaxHeap.rs:54-64 | stopping when no child's key is larger leaves a heap |
| MaxHeap.RootIsMax | src/MaxHeap/MaxHeap.rs:100-111 | in a heap no entry's key exceeds the root's |
| MaxHeap.RemoveRoot | src/MaxHeap/MaxHeap.rs:105-106 | swapping root and last entry and popping the back removes exactly the old root, a largest entry, and leaves a heap with a hole at the root |
| MaxHeap.PopsShrink | src/MaxHeap/MaxHeap.rs:100-111 | along a run of pops, each later stored multiset is contained in each earlier one |
| MaxHeap.PopsNonIncreasing | src/MaxHeap/MaxHeap.rs:100-111 | repeated pops yield keys in non-increasing order |
| MaxHeap.Heap.constructor | src/MaxHeap/MaxHeap.rs:89-93 | `new` gives an empty, valid heap |
| MaxHeap.Heap.Len | src/MaxHeap/MaxHeap.rs:85-87 | the number of stored entries |
| MaxHeap.Heap.SiftUp | src/MaxHeap/MaxHeap.rs:24-45 | from a heap with a hole at `idx` being sifted up, restores the heap order by swaps alone: same length, same multiset |
| MaxHeap.Heap.SiftDown | src/MaxHeap/MaxHeap.rs:47-81 | from a heap with a hole at `idx` being sifted down, restores the heap order by swaps alone, including the branch with only a left child |
| MaxHeap.Heap.Insert | src/MaxHeap/MaxHeap.rs:95-98 | the heap stays valid, grows by one, and holds the old multiset plus `(k, v)` |
| MaxHeap.Heap.PopMax | src/MaxHeap/MaxHeap.rs:100-111 | on an empty heap, `None` and no change. Otherwise it returns the old root, whose key is no smaller than any stored key, shrinks by one, leaves exactly the old multiset minus that entry, and stays a heap |
| Nodes.ElementsEq | src/BinaryTree/BinaryTree.rs:39 | the element-wise walk is true exactly when the two member sequences are equal |
| Nodes.NodeEq | src/BinaryTree/BinaryTree.rs:37-41 | two nodes are equal exactly when their member sequences are equal |
| Nodes.NodeEqIgnoresLinks | src/BinaryTree/BinaryTree.rs:37-49 | `parent`, `left` and `right` never affect node equality, so the reverse map is keyed by members only |
| Nodes.NewFromStr | src/BinaryTree/BinaryTree.rs:53-62 | a singleton leaf holding the label, with no links |
| Nodes.NewEmpty | src/BinaryTree/BinaryTree.rs:65-73 | a node with no members and no links |
| Nodes.AddInner | src/BinaryTree/BinaryTree.rs:118-122 | the node's members gain the inputs at the back, in order; the links are unchanged |
| Nodes.Clone | src/BinaryTree/BinaryTree.rs:130-139 | the copy equals the original in every field |
| Nodes.GetLeftStr | src/BinaryTree/BinaryTree.rs:110-113 | the last member; on a singleton, its one label |
| Linkage.Lookup | src/BinaryTree/BinaryTree.rs:324-325 | defined exactly when both keys are present, and then the stored score |
| Linkage.PairValue | src/BinaryTree/BinaryTree.rs:324-336 | a cross pair counts exactly when one direction of the table, and not both, holds a score; the value is that score |
| Linkage.ContributionSymmetric | src/BinaryTree/BinaryTree.rs:324-336 | a pair adds the same amount whichever side it is looked up from |
| Linkage.CrossSymmetric | src/BinaryTree/BinaryTree.rs:320-338 | the nested loop's (sum, count) is the same with the two clusters swapped |
| Linkage.CrossConcat | src/BinaryTree/BinaryTree.rs:320-338 | the (sum, count) of a merged cluster `l1 ++ l2` against another is the sum of its two parts' |
| Linkage.CrossCountBound | src/BinaryTree/BinaryTree.rs:320-338 | the count lies between 0 and \|ls\|·\|rs\|, and reaches \|ls\|·\|rs\| when every cross pair has exactly one direction stored |
| Linkage.RowCountCovered | src/BinaryTree/BinaryTree.rs:323-337 | an inner loop over fully covered pairs counts every label |
| Linkage.LinkageDefinedWhenCovered | src/BinaryTree/BinaryTree.rs:339-349 | for two non-empty registered clusters with every cross pair covered, the linkage is the mean over all \|ls\|·\|rs\| pairs with both handles |
| Linkage.LinkageSymmetric | src/BinaryTree/BinaryTree.rs:314-350 | swapping the clusters keeps definedness and the score and swaps the handles |
| Arena.NewState | src/BinaryTree/BinaryTree.rs:153-168 | `BinaryT::new` keeps the three maps given and starts with no root, nothing clustered and no sub-tree roots |
| Arena.InitialValid | src/BinaryTree/BinaryTree.rs:153-168 | the arena ingest hands over (handles 0..n-1, one distinct singleton each) satisfies the invariant, and every handle is active |
| Arena.MergeState | src/BinaryTree/BinaryTree.rs:172-211 | `merge` keeps the root and the sample set; `MergeShape` states the rest of the new state |
| Arena.MergeShape | src/BinaryTree/BinaryTree.rs:182-207 | when the joined members are unregistered and the handle `len(nid)+1` is unused (as `MergeIsFresh` proves for active nodes), after `merge` the new node at that handle holds left ++ right with the two child handles; both children have it as parent and keep their members; the reverse map gains it; no other node changes |
| Arena.MergeIsFresh | src/BinaryTree/BinaryTree.rs:182 | for two active nodes, the new handle is unused and the concatenated members are not yet registered |
| Arena.MergeKeepsValid | src/BinaryTree/BinaryTree.rs:172-211 | merging two active nodes keeps the arena invariant |
| Arena.MergeActive | src/BinaryTree/BinaryTree.rs:172-211 | merging removes the two nodes from the active (parentless) set and adds the new one |
| Arena.MergeKeepsBookkeeping | src/BinaryTree/BinaryTree.rs:192-197 | singleton children's labels become clustered and the new handle becomes a sub-tree root, keeping the tracking invariants |
| Arena.MergeKeepsTree | src/BinaryTree/BinaryTree.rs:184-187 | the child and parent links stay consistent |
| Arena.MergeKeepsActiveDisjoint | src/BinaryTree/BinaryTree.rs:172-211 | active clusters keep pairwise disjoint members |
| Arena.NotWithinActive | src/BinaryTree/BinaryTree.rs:172-211 | the members of two active nodes together are never inside one stored node, so a merge never collides with an existing entry |
| Arena.Unclustered | src/BinaryTree/BinaryTree.rs:215-220 | a subset of the samples, disjoint from the clustered ones, which with them covers every sample |
| Arena.UnclusteredAreActiveLeaves | src/BinaryTree/BinaryTree.rs:215-220 | a sample is unclustered exactly when its singleton is active |
| Arena.CandidatesAreActive | src/BinaryTree/BinaryTree.rs:290-309 | a member sequence is a candidate exactly when it belongs to an active node other than the new one |
| Arena.UpdateArena | src/BinaryTree/BinaryTree.rs:227-264 | `updating` keeps the sample set |
| Arena.UpdateFacts | src/BinaryTree/BinaryTree.rs:241-254 | the invariant holds afterwards. A stale pair (either side has a parent) changes nothing. Otherwise the merge happens, and the root is set exactly when the new node holds every sample |
| Arena.UpdateKeepsValid | src/BinaryTree/BinaryTree.rs:227-264 | `updating` keeps the arena invariant |
| Arena.SetRootKeepsValid | src/BinaryTree/BinaryTree.rs:250-254 | setting the root at a node holding as many members as there are samples keeps the invariant |
| Arena.UpdateKeepsEntriesOk | src/BinaryTree/BinaryTree.rs:256-261 | every queued pair names stored handles, before and after the new linkages are pushed |
| Arena.UpdateProgress | src/BinaryTree/BinaryTree.rs:246-254 | a non-stale `updating` strictly lowers active clusters plus unclustered leaves |
| Arena.ValuesUnion | src/BinaryTree/BinaryTree.rs:299-310 | the pushed linkages of two disjoint candidate sets are the union of each's, so `o1.extend(o2)` loses nothing |
| Members.InitialDistinct | src/main.rs:76-85 | the arena built by ingest has duplicate-free clusters |
| Members.UpdateKeepsDistinct | src/BinaryTree/BinaryTree.rs:172-211 | `updating` of two different handles keeps every cluster duplicate-free |
| Members.UpdateKeepsEntriesDistinct | src/BinaryTree/BinaryTree.rs:256-261 | pushed pairs always name two different handles |
| Members.SelfMergeDuplicates | src/BinaryTree/BinaryTree.rs:172-211 | `updating(i, i)` on an active node builds a cluster listing its members twice |
| Members.RootHoldsEverySample | src/BinaryTree/BinaryTree.rs:250-254 | with duplicate-free clusters, the root holds each sample exactly once |
| Members.DuplicateRootMissesSample | src/BinaryTree/BinaryTree.rs:250-254 | a root that repeats a member leaves some sample out |
| BinaryTree.BinaryT.constructor | src/BinaryTree/BinaryTree.rs:153-168 | the fields are `NewState` of the inputs |
| BinaryTree.BinaryT.Merge | src/BinaryTree/BinaryTree.rs:172-211 | the fields become `MergeState` of the old fields, and the result is the new handle `len(nid)+1`; panics are excluded by the requirement that both nodes are registered |
| BinaryTree.BinaryT.GetUnclusteredLeafs | src/BinaryTree/BinaryTree.rs:215-220 | the samples not yet clustered |
| BinaryTree.BinaryT.GetNodeIndex | src/BinaryTree/BinaryTree.rs:353-355 | found exactly when the members are registered; under the invariant the handle stores those members |
| BinaryTree.BinaryT.NodeIndexOfNode | src/BinaryTree/BinaryTree.rs:353-355 | every stored node is found at its own handle |
| BinaryTree.BinaryT.CalculateTwo | src/BinaryTree/BinaryTree.rs:314-350 | the nested loop yields `LinkageOf`: undefined when no cross pair counted or a node is unregistered, otherwise the mean and both handles |
| BinaryTree.BinaryT.CalculateParallel | src/BinaryTree/BinaryTree.rs:284-312 | the defined results are exactly one linkage per candidate (unclustered leaves and parentless sub-tree roots, minus the new node) |
| BinaryTree.BinaryT.LeafLinkages | src/BinaryTree/BinaryTree.rs:290-303 | one linkage per unclustered leaf other than the new node |
| BinaryTree.BinaryT.RootLinkages | src/BinaryTree/BinaryTree.rs:291-309 | one linkage per parentless sub-tree root other than the new node |
| BinaryTree.BinaryT.Updating | src/BinaryTree/BinaryTree.rs:227-264 | the fields become `UpdateArena` of the old fields and the heap gains exactly `UpdatePushed`. The invariant is kept. The panic on a missing handle is the requirement that both handles exist |
| BinaryTree.BinaryT.MergeAndLink | src/BinaryTree/BinaryTree.rs:246-263 | after the staleness check: the merge, then either the root or the pushes |
| BinaryTree.PushAll | src/BinaryTree/BinaryTree.rs:257-261 | each defined result becomes one heap entry; the heap stays valid |
| BinaryTree.BinaryT.ToNewick | src/BinaryTree/BinaryTree.rs:357-397 | for a set root, the text is `BfsText` from the root; the missing-root panic is a requirement |
| BinaryTree.BfsWalk | src/BinaryTree/BinaryTree.rs:362-396 | the work-queue loop computes `BfsText` of the root |
| Newick.ArenaTreeShaped | src/BinaryTree/BinaryTree.rs:380-383 | under the arena invariant every node of two or more members has two stored children whose members concatenate to its own, so the walk's `unwrap`s succeed |
| Newick.BfsRootText | src/BinaryTree/BinaryTree.rs:357-397 | a singleton root yields ""; otherwise deleting the parentheses from the text gives the root's members joined by commas, then ";" (stripped) |
| Newick.BfsRootMembers | src/BinaryTree/BinaryTree.rs:357-397 | for labels without parentheses, deleting all parentheses gives exactly `join(root.members, ",") + ";"` |
| Newick.BfsKeepsStripped | src/BinaryTree/BinaryTree.rs:390-393 | once the text is started, later expansions only insert parentheses |
| Newick.BfsStart | src/BinaryTree/BinaryTree.rs:384-389 | the first expansion queues both children and starts the text as `(members);` |
| Newick.BfsWrap | src/BinaryTree/BinaryTree.rs:384-393 | a later expansion queues both children and wraps every occurrence of the joined members in parentheses |
| Newick.BfsSkip | src/BinaryTree/BinaryTree.rs:376-379 | a singleton is dequeued without changing the text |
| Newick.BfsScrambles | src/BinaryTree/BinaryTree.rs:390-393 | for the samples x, y, zx, yz merged as (x,y) and (zx,yz), the walk writes "((x,y),z(x,y)z);", which does not read as Newick; the structural writer's text reads back as the tree |
| Newick.BfsAgrees | src/BinaryTree/BinaryTree.rs:357-397 | for the samples s1, s2, s3 merged as (s1,s2) and then popped as (candidate s3, new pair), the root lists s3 first. The walk writes "(s3,(s1,s2));", the same text as the structural writer, which reads back as the merged tree |
| Newick.NewickDecodes | src/BinaryTree/BinaryTree.rs:357-397 | the structural Newick text of the tree below the root reads back as exactly that tree, whose leaves are the root's members in order |
| Newick.TreeOfLabels | src/BinaryTree/BinaryTree.rs:184-191 | the tree below a node has its members as leaves, in order |
| Newick.ReadPrint | src/BinaryTree/BinaryTree.rs:357-397 | reading back the printed tree gives the tree and leaves the rest of the text |
| Newick.ScrambleUnreadable | src/BinaryTree/BinaryTree.rs:390-393 | the text "((x,y),z(x,y)z);" does not parse as Newick |
| Text.ReplaceAllAbsent | src/BinaryTree/BinaryTree.rs:392 | where the pattern does not occur, `replace` changes nothing |
| Text.WrapKeepsStripped | src/BinaryTree/BinaryTree.rs:391-392 | wrapping every occurrence of a pattern in parentheses leaves the text unchanged once parentheses are deleted |
| Text.JoinConcat | src/BinaryTree/BinaryTree.rs:387 | joining two lists puts one separator between their joins |
| Tokenizer.FindFrom | src/main.rs:36 | the first occurrence of the delimiter at or after `from`, or none |
| Tokenizer.Find | src/main.rs:36 | `str::find`: the first occurrence of the delimiter, or none if there is no occurrence |
| Tokenizer.Strtok | src/main.rs:35-46 | with a delimiter, the prefix ++ delimiter ++ rest is the input; without one, the prefix is everything and the rest is empty. The prefix never holds the delimiter, and a non-empty input strictly shrinks |
| Tokenizer.SplitRow | src/main.rs:63-66 | the field loop collects `Tokens(row, d)` |
| Tokenizer.TokensHaveNoDelimiter | src/main.rs:64-66 | no collected token contains the delimiter |
| Tokenizer.TokensJoin | src/main.rs:60-66 | for a one-character delimiter, the tokens joined by it give back the input, up to a trailing delimiter |
| Driver.ParseRow | src/main.rs:63-72 | a line parses exactly when it splits into three fields and the score parses. `WrongFieldCount` with the count when the split does not give three fields; `BadScore` with the field when the score does not parse |
| Driver.ParseRowFields | src/main.rs:63-72 | a parsed row's names are tab-free and, with the score field, give back the line |
| Driver.ParseLinesOk | src/main.rs:60-99 | the input is accepted exactly when every line parses |
| Driver.ParseLinesRows | src/main.rs:60-99 | accepted input gives one row per line, in order |
| Driver.FirstErrorWins | src/main.rs:60-99 | the error reported is that of the first line that does not parse |
| Driver.Register | src/main.rs:76-85 | a known name leaves the order as it is; a new one is appended |
| Driver.OrderNoDup | src/main.rs:76-85 | each name is registered once |
| Driver.IngestNames | src/main.rs:76-85 | the names registered are exactly those the rows mention |
| Driver.IngestPrefix | src/main.rs:76-85 | earlier names keep their handles as later rows are read |
| Driver.IndexOfDistinct | src/main.rs:59-85 | with no name seen twice, the i-th name has handle i |
| Driver.OrderInitial | src/main.rs:59-85 | the names seen give handles 0..n-1, each a distinct singleton registered both ways, with as many singletons as samples |
| Driver.EnrollTracks | src/main.rs:76-85 | one `all_samples.insert` step gives a new name the next handle in both maps and bumps the counter. A known name changes nothing |
| Driver.IngestedTracks | src/main.rs:60-99 | the loop's registry is the one the name order determines (counter equal to the number of names), and its table is the table of the rows |
| Driver.PutLookup | src/main.rs:87-94 | storing a score at (a, b) overwrites that pair and leaves every other pair alone |
| Driver.TableOfRows | src/main.rs:87-94 | the table holds (a, b) exactly when some row is (a, b, _) |
| Driver.LastRowWins | src/main.rs:87-94 | a repeated (from, to) row overwrites: the last one's score stays |
| Driver.QueueIsRowEntries | src/main.rs:96-98 | the heap receives one entry per row, in row order, carrying the row's score and its names' handles |
| Driver.RowEntriesAt | src/main.rs:96-98 | the k-th queued entry is the k-th row's |
| Driver.ReadRow | src/main.rs:62-72 | splitting and checking one line gives `ParseRow` |
| Driver.Load | src/main.rs:73-98 | one parsed row moves the registry and table to `Ingested` of the longer row list and adds its entry to the heap |
| Driver.IngestLine | src/main.rs:62-98 | one loop body: the line's parse result; if it parses, the state after one more row |
| Driver.IngestContent | src/main.rs:60-99 | the ingest loop stops with the first bad line's error, or yields `Ingested` of all rows with the heap holding `Queue` of them |
| Driver.CountCheck | src/main.rs:101-112 | passes exactly when the stored pairs number (n·n − n)/2, and otherwise reports both numbers |
| Driver.AcceptedRemove | src/main.rs:103-108 | the sum of the inner tables' sizes does not depend on the order the keys are visited in |
| Driver.CountPairs | src/main.rs:103-108 | the `map`/`reduce` loop sums every inner table's size |
| Driver.CheckPairs | src/main.rs:101-112 | computes the corrected check: the count check, then no self pair |
| Driver.NoSelfPairEntries | src/main.rs:96-98 | without a self pair in the table, every queued pair names two different handles |
| Driver.SelfPairPassesCount | src/main.rs:101-112 | for rows "a a 10", "a b 5", "b c 1", the count check as written passes although "a" is paired with itself, and that pair is queued as the largest entry |
| Driver.StartReady | src/main.rs:101-114 | without a self pair, the ingested arena satisfies `Initial` and the merge loop's invariant, and its samples are the names the rows mention |
| Driver.RowEntriesInArena | src/main.rs:96-114 | every queued entry names two handles of the arena given to `BinaryT::new` |
| Driver.MergeStep | src/main.rs:117-123 | on an empty heap, no change. Otherwise it pops a largest entry, and the tree becomes `UpdateArena` of it. The heap loses that entry and gains `UpdatePushed`. The invariant is kept and the lexicographic measure drops |
| Driver.RunExtend | src/main.rs:116-124 | a recorded run of the merge loop grows by one round: a largest entry of the last heap is popped, the arena moves to `UpdateArena` of its handles, and the heap loses it and gains `UpdatePushed` |
| Driver.RunAgrees | src/main.rs:116-124 | two runs from the same arena and heap that pop the same entries agree on the arena and heap after each round |
| Driver.RunDetermined | src/main.rs:116-124 | the popped entries determine the whole run: the same start and the same entries give the same sequences of arenas and heaps |
| Driver.MergeAll | src/main.rs:116-124 | loops until the root is set, keeping the invariant and the samples; it stops without a root only when the heap is empty, where the source's `unwrap` panics. Its ghost results are the run it took (`Run`): the arenas, the heaps and the popped entries, from the old tree and heap to the final ones, each round from a largest entry |
| Driver.FinishedTree | src/BinaryTree/BinaryTree.rs:250-254 | once the root is set, the tree below it has each sample as a leaf exactly once; with plain labels its text reads back as that tree |
| Driver.Clustering | src/main.rs:48-129 | the first bad line's error; else the corrected count check's error; else a recorded merge run (`Run`) from `NewState` of the ingested registry and the queued row entries. The text is produced exactly when that run ends with a root, and is then `NewickText` of the final arena: the tree `TreeOf` of its root, whose leaves are the names in the rows, each once, and which reads back as itself when the names are plain. Otherwise the heap ran dry |

## Left out

- `read_file`, `wirte_file`, `main` and the command-line arguments (src/main.rs:17-30, 131-136): file and terminal I/O. `Driver.Clustering` takes the file content as a string and returns the text that would be printed.
- Parsing the score (`trim().parse::<f64>()` at src/main.rs:70): a parameter `score: string -> Option<int>`, so scores are integers. Heap keys and the linkage mean are `real`; floating-point rounding is not modelled.
- `BTree` internals (the table's library): the table is a nested `map`.
- Hash-set and hash-map iteration order: candidates, samples and the table's keys are sets. `CountPairs` sums the keys in an arbitrary order and is proved independent of it. `CalculateParallel` visits candidates in an arbitrary order and is specified up to a multiset.
- Heap tie-breaking: `MaxHeap.Heap.PopMax` promises a largest entry, which is the old root; which of several equal keys sits at the root is not specified further.
- `usize` overflow: handles, counts and `n * n` are unbounded.
- The `len` counter of `BinaryT` (src/BinaryTree/BinaryTree.rs:149, 158, 208): never read.
- `inner_data_size`, `get_inner_data`, `set_left`, `set_right`, `set_parent`, `get_parent_idx` and `get_node`: one-line accessors, written as field reads.
- `get_sub_tree_roots` and `str_to_leaf_nodes` (src/BinaryTree/BinaryTree.rs:268-282): folded into `Arena.Candidates`, `LeafLinkages` and `RootLinkages`.
- `Arc` reference counting and lifetimes: no behaviour.
- The panic messages: each panic is an `Err` or a requirement, and the text it prints is not modelled.
- `Driver.Clustering`: does not prove that the heap cannot run dry before the root is set. Its result may be `Err(HeapExhausted)`, where the source's `unwrap` at src/main.rs:117 panics. The source lets that happen. Take the rows "a b 1", "b a 2" and "a c 3": they pass both checks, because a pair stored in both directions counts twice. After a and c merge, no score links b to them, and the two remaining entries are stale. The model does not derive this run.
- `Driver.Clustering`: the text it returns is the structural writer's (`Newick.NewickText`), not `to_newick`'s walk (`Newick.BfsText`). The two are proved to agree only on the example of `Newick.BfsAgrees`. The model does not prove that they agree in general when no node's joined members occur elsewhere in the text.
- `Tokenizer.TokensJoin`: proved for one-character delimiters only, which both of the source's delimiters are.
- `Driver.StartReady`, `Driver.MergeStep`, `Driver.MergeAll`, `Driver.Clustering`: the merge loop runs on the corrected check. Its invariant `Driver.Ready`, which `Driver.MergeStep` and `Driver.MergeAll` require, includes no self pair, and the as-written check does not ensure that (see Findings).

## Findings

| source | as written | input that shows it | evidently intended | confidence | as-written member | corrected member |
|---|---|---|---|---|---|---|
| src/BinaryTree/BinaryTree.rs:390-393 | each later expansion replaces every occurrence of the node's comma-joined members anywhere in the text | samples x, y, zx, yz merged as (x,y), then (zx,yz), then both: the text becomes "((x,y),z(x,y)z);", because "x,y" also occurs across "zx,yz" | Newick text of the merge tree, "((x,y),(zx,yz));" | not executed | Newick.BfsScrambles | Newick.NewickDecodes |
| src/main.rs:101-112 | the check compares only the number of stored pairs with n·(n−1)/2, so a row pairing a name with itself can stand in for a missing pair | rows "a a 10", "a b 5", "b c 1": three samples and three stored pairs pass. The pair (a, a) is the largest entry, so the loop first merges leaf "a" with itself | reject input containing a self pair, so that every cluster holds each sample once and the root holds every sample | not executed | Driver.SelfPairPassesCount | Driver.CheckPairs |

For the first row:
- `BinaryTree.BinaryT.ToNewick` computes `Newick.BfsText`.
- `Newick.BfsScrambles` shows the unreadable result. Its `ScrambleArena` is written out as that merge history leaves the arena: handles 0 to 3 for the leaves, then 5, 6 and 7 for the merges.
- `Driver.Clustering` writes the text with the structural writer `Newick.NewickText` instead. `Newick.NewickDecodes` proves that text reads back as the tree.

For the second row:
- `Members.SelfMergeDuplicates` and `Members.DuplicateRootMissesSample` show what a self pair does to the clusters.
- `Driver.Check` adds the missing condition, and `Driver.CheckPairs` computes it.
- Under that check, `Members.RootHoldsEverySample` and `Driver.FinishedTree` prove the root holds each sample exactly once.
