# ROFL datapath classification core, in Dafny

This project models three parts of the classification engine of the ROFL
software datapath and proves properties of them:

- **OpenFlow 1.2 flow entries** (`of12_flow_entry.dfy`, module `OF12FlowEntry`).
  - Creation and destruction of an entry. Destruction sends a flow-removed notification only in the cases the source allows.
  - Adding match chains, with the `num_of_matches` bookkeeping.
  - Replacing an entry's instructions.
  - The overlap, containment and equality checks used by flow-mod processing.
  - Resolving group actions before insertion.
- **The OpenFlow 1.x trie matching algorithm.**
  - Table side (`of1x_trie_ma.dfy`, module `TrieMA`): trie initialisation, recursive destruction of the leaf tree, the overlap and exact-match finders, the add path with its mutex, and the stub entry points.
  - Packet side (`of1x_trie_ma_pp.dfy`, module `TrieLookup`): the lock-free lookup walk over `inner` and `next` children. Its threshold is fixed when the lookup starts.
- **The Pearson hash of the L2 hash matching algorithm** (`of1x_l2hash_ma.dfy`, module `L2Hash`): the 8-byte and 10-byte folds over the 16-bit table `l2hash_ht_T`.

`rofl_types.dfy` (module `RoflTypes`) holds the result codes and integer
types they share. It also holds `Outcome`, whose `Undefined` value stands
for C undefined behaviour (a NULL dereference or an out-of-bounds read).
`Undefined` is an explicit result rather than a precondition, so the model
can show which callers reach it.

How the C code becomes Dafny:

- **Objects the C code updates in place are classes.**
  - A flow entry is `FlowEntry`.
  - A trie leaf is `Leaf`. Its tree invariant `Valid()` is a footprint `Repr` plus a ghost value `model` of type `Tree`.
  - The trie is `Trie` and the table is `FlowTable`.
- **Loops are methods with invariants.**
  - The hash rounds and the group-resolution loops are proved equal to pure specification functions (`Fold`, `ResolveList`, `ValidateFrom`), and the properties are lemmas about those functions.
  - The chain-freeing loop is proved to free exactly the entry's matches, in list order.
  - The match-counting loop is proved to return the chain's length.
- **The three checks are pure functions.** Each one's postcondition states its quantified meaning.
- **Helpers whose bodies are not part of this model are function-valued parameters, left uninterpreted.** These are submatch, match equality, `of12_add_match`, the two `*_actions_has` lookups, `of12_group_search`, `of12_update_instructions` and `__of1x_check_match`.
- **Nondeterministic outcomes become boolean parameters.** This covers allocation success and rwlock creation.
- **Platform side effects become ghost state or returned values.** Lock operations are ghost event logs. Frees are ghost flags or returned sequences. A removal notification is a returned value.

Where the code departs from what a reader of OpenFlow or of the
interface comments would expect, the model follows the code:

- **Lookup result.** The lookup returns the last qualifying entry in pre-order, not the highest-priority match that OpenFlow table lookup calls for (`LaterLowerPriorityWins`).
- **Overlap check on matches.** `check_overlap` requires EVERY same-type pair of matches to be comparable. It does not compare the two entries field by field, asking for one comparable pair per field.
- **Add path.** The trie add path inserts nothing. Its overlap finder dereferences NULL.
- **Validation failure.** A failed validation has already stored the failing lookup result (NULL) into the action.
- **Destroying the trie.** `of1x_destroy_trie` frees everything and still reports failure.

## Model

| member | source | states |
|---|---|---|
| L2Hash.Lane | src/rofl/datapath/pipeline/openflow/openflow1x/pipeline/matching_algorithms/l2hash/of1x_l2hash_ma.h:72-79 | `L2HASH_MAX_ENTRIES & key[i]` promotes the `char`: a negative byte (signed `char`) becomes `0xFF00 | b`, anything else is the byte itself |
| L2Hash.HashPrefix | src/rofl/datapath/pipeline/openflow/openflow1x/pipeline/matching_algorithms/l2hash/of1x_l2hash_ma.h:70-82 | the loop that overwrites `hash` once per byte returns the left fold of the table step over the first n bytes; a defined result is an element of `T`; a read outside `T` gives `None` |
| L2Hash.Hash64 | src/rofl/datapath/pipeline/openflow/openflow1x/pipeline/matching_algorithms/l2hash/of1x_l2hash_ma.h:70-82 | `l2hash_ht_hash64` is the fold over `key[0..7]` starting from 0, and its value is an element of `T` |
| L2Hash.Hash96 | src/rofl/datapath/pipeline/openflow/openflow1x/pipeline/matching_algorithms/l2hash/of1x_l2hash_ma.h:85-99 | `l2hash_ht_hash96` is the fold over `key[0..9]` starting from 0, and its value is an element of `T` |
| L2Hash.FoldSplit | src/rofl/datapath/pipeline/openflow/openflow1x/pipeline/matching_algorithms/l2hash/of1x_l2hash_ma.h:72-79 | only the 16-bit hash carries over between rounds: folding `a + b` is folding `a`, then folding `b` from the hash reached |
| L2Hash.FoldValueInTable | src/rofl/datapath/pipeline/openflow/openflow1x/pipeline/matching_algorithms/l2hash/of1x_l2hash_ma.h:67-82 | after at least one round, a defined hash is an element of `l2hash_ht_T` |
| L2Hash.Hash64ReadsFirstEightBytes | src/rofl/datapath/pipeline/openflow/openflow1x/pipeline/matching_algorithms/l2hash/of1x_l2hash_ma.h:70-82 | two keys that agree on their first eight bytes hash alike; `size` and later bytes are never read |
| L2Hash.Hash96ExtendsHash64 | src/rofl/datapath/pipeline/openflow/openflow1x/pipeline/matching_algorithms/l2hash/of1x_l2hash_ma.h:85-99 | the 96-bit hash is the 64-bit hash followed by two more rounds, on `key[8]` and `key[9]` |
| L2Hash.UnsignedCharBoundedTableStaysInside | src/rofl/datapath/pipeline/openflow/openflow1x/pipeline/matching_algorithms/l2hash/of1x_l2hash_ma.h:67-82 | with unsigned `char` and all table values below 0xFF00, every round stays inside the 0xFFFF-element table |
| L2Hash.IndexKeepsHighByte | src/rofl/datapath/pipeline/openflow/openflow1x/pipeline/matching_algorithms/l2hash/of1x_l2hash_ma.h:72 | xor with an unsigned byte keeps a hash below 0xFF00 below 0xFF00 |
| L2Hash.BroadcastKeyReadsPastTable | src/rofl/datapath/pipeline/openflow/openflow1x/pipeline/matching_algorithms/l2hash/of1x_l2hash_ma.h:67-72 | with signed `char`, a key whose first byte is 0xFF makes both hashes read `T[0xFFFF]`, one past the end of the 0xFFFF-element table |
| L2Hash.FullTableFoldDefined | src/rofl/datapath/pipeline/openflow/openflow1x/pipeline/matching_algorithms/l2hash/of1x_l2hash_ma.h:67-82 | with 0x10000 table elements, every fold is defined, for any key and either `char` signedness |
| L2Hash.Hash64FullTable | src/rofl/datapath/pipeline/openflow/openflow1x/pipeline/matching_algorithms/l2hash/of1x_l2hash_ma.h:67-82 | the corrected hash over a 0x10000-element table is always defined, equals the fold, and is an element of `T` |
| TrieMA.Trie.Allocate | src/rofl/datapath/pipeline/openflow/openflow1x/pipeline/matching_algorithms/trie/of1x_trie_ma.c:27 | a freshly allocated trie owns no leaves and its `entry` is whatever the uncleared memory held |
| TrieMA.InitTrie | src/rofl/datapath/pipeline/openflow/openflow1x/pipeline/matching_algorithms/trie/of1x_trie_ma.c:24-34 | on allocation success, installs a fresh valid trie with a NULL root in `matching_aux[0]` and returns SUCCESS; on failure, the unchecked write through NULL is undefined |
| TrieMA.InitTrieCleared | src/rofl/datapath/pipeline/openflow/openflow1x/pipeline/matching_algorithms/trie/of1x_trie_ma.c:24-34 | initialisation as intended: as `InitTrie`, but the list of entries without matches starts NULL |
| TrieMA.DestroyLeaf | src/rofl/datapath/pipeline/openflow/openflow1x/pipeline/matching_algorithms/trie/of1x_trie_ma.c:37-50 | frees nothing for NULL; otherwise frees in post-order: the inner subtree, then the next chain, then the leaf |
| TrieMA.PostOrderFreesEachOnce | src/rofl/datapath/pipeline/openflow/openflow1x/pipeline/matching_algorithms/trie/of1x_trie_ma.c:37-50 | that order frees every leaf of the tree exactly once and nothing else, frees the leaf itself last, and frees the whole inner subtree before any leaf of the next chain |
| TrieMA.FreeOrderConcat | src/rofl/datapath/pipeline/openflow/openflow1x/pipeline/matching_algorithms/trie/of1x_trie_ma.c:42-49 | freeing disjoint inner and next parts once each, then the leaf, frees their union once, inner part first |
| TrieMA.DestroyTrie | src/rofl/datapath/pipeline/openflow/openflow1x/pipeline/matching_algorithms/trie/of1x_trie_ma.c:52-63 | frees every leaf of the trie exactly once and then the trie structure, and returns FAILURE all the same |
| TrieMA.FindOverlapReen | src/rofl/datapath/pipeline/openflow/openflow1x/pipeline/matching_algorithms/trie/of1x_trie_ma.c:79-100 | defined exactly when `*prev` is non-NULL, `*next` is not `(*prev)->parent` and `*next` is non-NULL; it then returns the entry at `*next` and leaves the cursor alone |
| TrieMA.FindExactTrie | src/rofl/datapath/pipeline/openflow/openflow1x/pipeline/matching_algorithms/trie/of1x_trie_ma.c:113-120 | never finds an entry |
| TrieMA.AddFlowEntryTrie | src/rofl/datapath/pipeline/openflow/openflow1x/pipeline/matching_algorithms/trie/of1x_trie_ma.c:126-174 | every defined exit locks and then unlocks the mutex once; the result is undefined exactly when the overlap check is asked (the finder is handed NULL); OVERLAP and FAILURE are never returned, and without the overlap check the result is SUCCESS with the trie untouched |
| TrieMA.AddOverlapCheckDereferencesNull | src/rofl/datapath/pipeline/openflow/openflow1x/pipeline/matching_algorithms/trie/of1x_trie_ma.c:140-144 | the add path's call `prev = NULL; find_overlap(&prev, …)` is outside the finder's defined inputs, whatever the root |
| TrieMA.ModifyFlowEntryTrie | src/rofl/datapath/pipeline/openflow/openflow1x/pipeline/matching_algorithms/trie/of1x_trie_ma.c:176-181 | always FAILURE |
| TrieMA.RemoveFlowEntryTrie | src/rofl/datapath/pipeline/openflow/openflow1x/pipeline/matching_algorithms/trie/of1x_trie_ma.c:183-192 | always FAILURE |
| TrieMA.GetFlowStatsTrie | src/rofl/datapath/pipeline/openflow/openflow1x/pipeline/matching_algorithms/trie/of1x_trie_ma.c:194-203 | always FAILURE |
| TrieMA.GetFlowAggregateStatsTrie | src/rofl/datapath/pipeline/openflow/openflow1x/pipeline/matching_algorithms/trie/of1x_trie_ma.c:205-214 | always FAILURE |
| TrieMA.FindEntryUsingGroupTrie | src/rofl/datapath/pipeline/openflow/openflow1x/pipeline/matching_algorithms/trie/of1x_trie_ma.c:216-220 | never finds an entry |
| TrieLookup.CheckLeafTrie | src/rofl/datapath/pipeline/openflow/openflow1x/pipeline/matching_algorithms/trie/of1x_trie_ma_pp.h:21-44 | the recursive walk leaves in `*best_match` the last qualifying entry in pre-order (leaf, inner, next), or the incoming candidate when none qualifies; `*match_priority` comes back unchanged |
| TrieLookup.WalkIsLastQualifying | src/rofl/datapath/pipeline/openflow/openflow1x/pipeline/matching_algorithms/trie/of1x_trie_ma_pp.h:21-44 | the walk equals the independent reference: last element of the pre-order list of entries at leaves passing priority gate and match (inner only below such a leaf, next always) |
| TrieLookup.QualifyingAreStored | src/rofl/datapath/pipeline/openflow/openflow1x/pipeline/matching_algorithms/trie/of1x_trie_ma_pp.h:30-31 | only entries stored at leaves of the tree can be reported |
| TrieLookup.OpenGateAtMinusOne | src/rofl/datapath/pipeline/openflow/openflow1x/pipeline/matching_algorithms/trie/of1x_trie_ma_pp.h:27-29 | with threshold -1 the unsigned `inner_max_priority` always passes the gate, so only the packet match prunes the walk |
| TrieLookup.LaterLowerPriorityWins | src/rofl/datapath/pipeline/openflow/openflow1x/pipeline/matching_algorithms/trie/of1x_trie_ma_pp.h:30-43 | a matching priority-1 entry on the next leaf replaces a matching priority-10 entry found earlier: the result is not the highest-priority match |
| TrieLookup.StartThreshold | src/rofl/datapath/pipeline/openflow/openflow1x/pipeline/matching_algorithms/trie/of1x_trie_ma_pp.h:51-62 | the threshold starts at -1 without an entry without matches, and at that entry's (non-negative) priority otherwise |
| TrieLookup.UninitialisedEntryShadowsTree | src/rofl/datapath/pipeline/openflow/openflow1x/pipeline/matching_algorithms/trie/of1x_trie_ma_pp.h:51-62 | an uncleared `trie->entry` with the largest priority stops every leaf from qualifying, so the lookup reports that entry whatever the tree holds |
| TrieLookup.ClearedEntryReportsOnlyStored | src/rofl/datapath/pipeline/openflow/openflow1x/pipeline/matching_algorithms/trie/of1x_trie_ma_pp.h:48-68 | from a cleared `trie->entry`, the lookup reports the last entry, in pre-order, at a leaf that matches the packet and all of whose `inner` ancestors match (`Matching`), and only entries stored in the tree |
| TrieLookup.FindBestMatchTrie | src/rofl/datapath/pipeline/openflow/openflow1x/pipeline/matching_algorithms/trie/of1x_trie_ma_pp.h:48-68 | a NULL root is dereferenced unchecked (undefined); otherwise the lookup returns the last qualifying entry under the starting threshold, or `trie->entry`; it is NULL exactly when `trie->entry` is NULL and nothing qualifies, and otherwise `trie->entry` or an entry stored in the tree |
| TrieLookup.FindBestMatchTrieGuarded | src/rofl/datapath/pipeline/openflow/openflow1x/pipeline/matching_algorithms/trie/of1x_trie_ma_pp.h:48-68 | the lookup as intended, with the walk guarded by a NULL test: an empty trie reports `trie->entry`; a non-empty one gives the same result as `FindBestMatchTrie` |
| OF12FlowEntry.FlowEntry.Zeroed | src/rofl/datapath/pipeline/openflow/openflow12/pipeline/of12_flow_entry.c:25 | a zeroed entry: no links, no matches, count 0, priority and cookies 0, empty instructions, zero counters, no table |
| OF12FlowEntry.InitFlowEntry | src/rofl/datapath/pipeline/openflow/openflow12/pipeline/of12_flow_entry.c:18-47 | NULL when allocation or rwlock creation fails; otherwise a fresh entry, zero everywhere except `prev`, `next` and `notify_removal`, which take the arguments, and whose count matches its (empty) chain |
| OF12FlowEntry.DestroyWithReason | src/rofl/datapath/pipeline/openflow/openflow12/pipeline/of12_flow_entry.c:51-89 | notifies exactly when `notify_removal` holds, the reason is not NO_REASON and table, pipeline and switch are all set (with that switch and reason); frees every match of the chain in order; write-locks then destroys the lock; frees the entry; returns SUCCESS |
| OF12FlowEntry.DestroyFlowEntry | src/rofl/datapath/pipeline/openflow/openflow12/pipeline/of12_flow_entry.c:93-95 | destruction with NO_REASON: never notifies, frees the chain, returns SUCCESS |
| OF12FlowEntry.CountChain | src/rofl/datapath/pipeline/openflow/openflow12/pipeline/of12_flow_entry.c:117-118 | the counting loop yields the length of the chain |
| OF12FlowEntry.AddMatchToEntry | src/rofl/datapath/pipeline/openflow/openflow12/pipeline/of12_flow_entry.c:98-123 | NULL chain: FAILURE, entry unchanged; empty entry: adopts the chain and the count becomes its length; otherwise the list is `of12_add_match(old, chain)` and the count grows by the chain's length; count = length is preserved when `of12_add_match` appends |
| OF12FlowEntry.UpdateFlowEntry | src/rofl/datapath/pipeline/openflow/openflow12/pipeline/of12_flow_entry.c:125-145 | only the target's instructions (copied from `mod`) and, iff `reset_counts`, its counters change, under one lock/unlock pair; matches, count, priority and cookie stay; `mod` is destroyed without notification; returns SUCCESS |
| OF12FlowEntry.ComparableWithAll | src/rofl/datapath/pipeline/openflow/openflow12/pipeline/of12_flow_entry.c:166-174 | one inner loop of `check_overlap` succeeds iff the match is a submatch or supermatch of every same-type match of `original` |
| OF12FlowEntry.AllComparable | src/rofl/datapath/pipeline/openflow/openflow12/pipeline/of12_flow_entry.c:165-175 | the nested loops succeed iff every same-type pair is comparable in one direction or the other |
| OF12FlowEntry.ContainedInAll | src/rofl/datapath/pipeline/openflow/openflow12/pipeline/of12_flow_entry.c:218-226 | one inner loop of `check_contained` succeeds iff the match is a submatch of every same-type match of `original` |
| OF12FlowEntry.AllContained | src/rofl/datapath/pipeline/openflow/openflow12/pipeline/of12_flow_entry.c:217-227 | the nested loops succeed iff every same-type pair has the subentry's match as the submatch (one direction only) |
| OF12FlowEntry.CheckOverlap | src/rofl/datapath/pipeline/openflow/openflow12/pipeline/of12_flow_entry.c:150-196 | true iff the cookie test (as written) does not reject, priorities agree when checked, every same-type match pair is comparable, and `entry`'s instructions pass the out-group and out-port filters |
| OF12FlowEntry.CheckContained | src/rofl/datapath/pipeline/openflow/openflow12/pipeline/of12_flow_entry.c:202-248 | true iff the cookie test does not reject, priorities agree when checked, every same-type match of `subentry` is a submatch of `original`'s, and `original`'s instructions pass the filters |
| OF12FlowEntry.EqualWalk | src/rofl/datapath/pipeline/openflow/openflow12/pipeline/of12_flow_entry.c:271-274 | the positional walk is true iff `original`'s list is at least as long and agrees position by position; it is undefined iff `original`'s list is shorter, agrees so far, and `of12_equal_matches` accepts the NULL it is then handed (the loop then dereferences NULL) |
| OF12FlowEntry.CheckEqual | src/rofl/datapath/pipeline/openflow/openflow12/pipeline/of12_flow_entry.c:252-295 | true iff the always-on cookie test does not reject, priorities and counts are equal, the matches agree position by position and `original`'s instructions pass the filters; undefined iff all tests pass, `original`'s list is shorter and agrees so far, and `of12_equal_matches` accepts NULL against the next match of `entry` |
| OF12FlowEntry.OverlapSymmetric | src/rofl/datapath/pipeline/openflow/openflow12/pipeline/of12_flow_entry.c:150-193 | with both tests off and port and group ANY, overlap does not depend on the order of the two entries |
| OF12FlowEntry.ContainedImpliesOverlap | src/rofl/datapath/pipeline/openflow/openflow12/pipeline/of12_flow_entry.c:202-227 | without out filters, containment implies overlap under the same tests |
| OF12FlowEntry.OutFiltersReadOneSide | src/rofl/datapath/pipeline/openflow/openflow12/pipeline/of12_flow_entry.c:178-193 | `check_overlap` ignores `original`'s instructions, `check_contained` and `check_equal` ignore `entry`'s |
| OF12FlowEntry.EqualDefinedWhenCountsAreLengths | src/rofl/datapath/pipeline/openflow/openflow12/pipeline/of12_flow_entry.c:266-274 | when both counts equal the chain lengths, the walk never runs off `original`'s list |
| OF12FlowEntry.SameCookieIsRejected | src/rofl/datapath/pipeline/openflow/openflow12/pipeline/of12_flow_entry.c:154-158 | with the cookie test on, an entry with a non-zero cookie is rejected by all three checks against an original holding the same cookie |
| OF12FlowEntry.CookieFilterInverted | src/rofl/datapath/pipeline/openflow/openflow12/pipeline/of12_flow_entry.c:155-157 | the intended masked-cookie filter selects the filter's own cookie and, under mask 0, every cookie, while, for a non-zero filter cookie, the as-written test rejects exactly the cookies the intended one selects |
| OF12FlowEntry.FirstMiss | src/rofl/datapath/pipeline/openflow/openflow12/pipeline/of12_flow_entry.c:327-331 | the position where the loop stops: every earlier action is resolvable, the one there is a GROUP action without a group |
| OF12FlowEntry.ResolveGroupActions | src/rofl/datapath/pipeline/openflow/openflow12/pipeline/of12_flow_entry.c:326-342 | the action loop stores the search result into each GROUP action up to and including the first miss, and reports whether there was none |
| OF12FlowEntry.ValidateFlowEntry | src/rofl/datapath/pipeline/openflow/openflow12/pipeline/of12_flow_entry.c:310-352 | the result and the rewritten instruction group are those of the slot-by-slot reference `ValidateFrom` over slots 0 to GOTO_TABLE-1 |
| OF12FlowEntry.SlotStepFacts | src/rofl/datapath/pipeline/openflow/openflow12/pipeline/of12_flow_entry.c:318-347 | one slot keeps its type; it stops with FAILURE iff its examined set holds an unresolved GROUP action, stops otherwise only for a NULL write array, and when it continues every GROUP action in it is resolved |
| OF12FlowEntry.ValidateFailsIffMiss | src/rofl/datapath/pipeline/openflow/openflow12/pipeline/of12_flow_entry.c:310-352 | with no NULL write array, validation is defined and fails iff some apply or write slot below GOTO_TABLE holds a GROUP action whose group is not found |
| OF12FlowEntry.ValidateSuccessResolvesAll | src/rofl/datapath/pipeline/openflow/openflow12/pipeline/of12_flow_entry.c:310-352 | slot types are kept and slots not examined (GOTO_TABLE and above) are untouched; after SUCCESS every examined GROUP action holds the group the search found |

## Left out

- Concurrency. The table mutex and entry rwlocks are ghost event logs (`mutexLog`, `rwlockLog`). The model does not cover interleavings with lookups or the missing reader lock in the lookup.
- Memory and timers. Allocation success is a boolean parameter, and frees are ghost flags or returned sequences. Timer destruction (`of12_destroy_timer_entries`), stats destruction and the bodies of `of12_destroy_match` and `of12_destroy_instruction_group` are not modelled. `of1x_destroy_trie` leaves `matching_aux[0]` dangling; the model returns the freed trie and leaves `aux` as it was.
- InitFlowEntry: `assert(0)` after a failed rwlock creation aborts debug builds. The model returns NULL, as release builds do.
- `of12_dump_flow_entry` only writes to stderr and is not modelled.
- Helpers whose bodies are not part of this model are uninterpreted: every property holds whatever they compute, and where a result depends on their answer the contract says so. These are `of12_is_submatch`, `of12_equal_matches`, `of12_add_match`, `of12_write_actions_has`, `of12_apply_actions_has`, `of12_group_search`, `of12_update_instructions`, `__of1x_check_match` and `__of1x_update_flow_entry`. The last one is a result parameter of the add path, on a branch the exact finder makes unreachable.
- EqualWalk: when `original`'s list runs out first, `of12_equal_matches` is called with a NULL first argument. Its answer there is the parameter `eq(None, _)`: false ends the walk with false, true leads to the NULL dereference `it_original->next`. Whether the helper itself dereferences NULL is not modelled.
- ValidateFlowEntry: `of12_validate_action_group` and `of12_validate_write_actions` are not part of this model and are taken to leave the action sets unchanged.
- UpdateFlowEntry: requires `mod` to be a different entry from `target`. The C routine accepts the same pointer twice; it then copies the entry's instructions onto itself and destroys it, leaving the caller with a freed entry. The model does not describe that misuse.
- UpdateFlowEntry: `of12_update_instructions` is taken to write only the target's instruction group. `of12_stats_flow_reset_counts` is taken to zero the packet and byte counters.
- InitFlowEntry: `of12_init_instruction_group` and `of12_init_flow_stats` are taken to leave what the `memset` leaves: empty slots and zero counters.
- AddMatchToEntry: the match chain is a sequence without back links, so `match->prev = NULL` is not represented. The counting loop counts the added chain's own nodes, which is what the C walk counts when `of12_add_match` appends the chain at the tail.
- AddMatchToEntry: `num_of_matches` is unbounded here; a 32-bit wrap-around is not modelled.
- Enumeration values whose headers are not part of this model are assumed:
  - instruction types NO=0, APPLY=1, CLEAR=2, WRITE=3, WRITE_METADATA=4, EXPERIMENTER=5, GOTO_TABLE=6, with one slot per type;
  - the write-action array's length stands for `OF12_AT_NUMBER`.
- Field types whose declaring header is not part of this model are assumed. `inner_max_priority` of a trie leaf and the priority of an `of1x_flow_entry_t` are `uint32_t`. `OpenGateAtMinusOne` and `StartThreshold`'s non-negative threshold depend on this: a 64-bit unsigned field at or above 2^63 would turn negative when cast to `int64_t`.
- Matches and packets are opaque values. The bit-level match encodings and the packet representation are not modelled.
- The bucket and table structures of the L2 hash are declarations only and are not modelled. The contents of `l2hash_ht_T` are a parameter.
- Trie insertion, node splitting, `inner_max_priority` maintenance, removal and modify do not exist in the source and are not modelled. `parent` links are kept but not constrained by the tree invariant; only the overlap finder reads them.

## Findings

| source | as written | input that shows it | evidently intended | confidence | as-written member | corrected member |
|---|---|---|---|---|---|---|
| src/rofl/datapath/pipeline/openflow/openflow1x/pipeline/matching_algorithms/l2hash/of1x_l2hash_ma.h:67-72 | `l2hash_ht_T` has `L2HASH_MAX_ENTRIES` = 0xFFFF elements, but `hash ^ (0xFFFF & key[i])` ranges over 0..0xFFFF | signed `char`, key starting with byte 0xFF (any broadcast MAC): the first index is 0xFFFF, one past the end | a table with one element per 16-bit index (0x10000), so every round is defined | medium; not executed | L2Hash.BroadcastKeyReadsPastTable | L2Hash.Hash64FullTable |
| src/rofl/datapath/pipeline/openflow/openflow12/pipeline/of12_flow_entry.c:155-158 | the cookie test returns false when the masked cookies are EQUAL | an entry and an original that both carry cookie 1 under mask 0xFF, with the cookie test on: every check rejects them | the OpenFlow 1.2 restriction (section A.3.4.1): keep only entries whose cookie agrees with the filter under the mask | medium; not executed | OF12FlowEntry.SameCookieIsRejected | OF12FlowEntry.CookieFilterInverted |
| src/rofl/datapath/pipeline/openflow/openflow1x/pipeline/matching_algorithms/trie/of1x_trie_ma.c:24-34 | `of1x_init_trie` allocates the trie without clearing it and sets only `root`; nothing in the file writes `trie->entry`, yet every lookup reads it (`of1x_trie_ma_pp.h`, lines 57-60) | uncleared memory whose `entry` word is non-NULL: the lookup starts from that pointer and its priority, and, once the trie has leaves, a priority of 0xFFFFFFFF hides every leaf (no code in `of1x_trie_ma.c` or `of1x_trie_ma_pp.h` creates leaves, see the next row) | `trie->entry = NULL` at initialisation | medium; not executed | TrieMA.InitTrie, TrieLookup.UninitialisedEntryShadowsTree | TrieMA.InitTrieCleared, TrieLookup.ClearedEntryReportsOnlyStored |
| src/rofl/datapath/pipeline/openflow/openflow1x/pipeline/matching_algorithms/trie/of1x_trie_ma_pp.h:48-68 | `of1x_find_best_match_trie_ma` hands `trie->root` to `of1x_check_leaf_trie`, which reads `leaf->inner_max_priority` without a NULL test (line 27); `of1x_init_trie` sets the root to NULL and neither the add path nor the stubs ever set it | any lookup on a table initialised by `of1x_init_trie`, before or after any number of `of1x_add_flow_entry_trie` calls: the root is NULL and is dereferenced | the walk guarded by `if (leaf)`, so an empty trie reports `trie->entry` | medium; not executed | TrieLookup.FindBestMatchTrie | TrieLookup.FindBestMatchTrieGuarded |
