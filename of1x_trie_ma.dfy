/**
 * Table-side routines of the OpenFlow 1.x trie matching algorithm
 * (`of1x_trie_ma.c`): initialisation, recursive destruction of the leaf
 * tree, the overlap and exact-match finders, the add path, and the
 * remaining interface entry points, which are stubs.
 *
 * A leaf (`struct of1x_trie_leaf`) is a heap object with `inner` and `next`
 * children; the tree invariant `Valid()` keeps the children's footprints
 * disjoint and excludes the leaf itself (acyclic, no sharing) and ties the
 * fields to the ghost value `model`.  Matches, packets and flow entries are
 * opaque values.
 */
module TrieMA {
  import opened RoflTypes

  /** An `of1x_match_t` held at a leaf; its bit-level encoding is not modelled. */
  datatype Match1x = Match1x(kind: nat, value: nat, mask: nat)

  /** An `of1x_flow_entry_t*` held by the trie: its identity and its priority. */
  datatype EntryRef = EntryRef(id: nat, priority: uint32)

  /** The value of a leaf and everything it owns through `inner` and `next`. */
  datatype Tree = Node(leafMatch: Match1x, entry: Option<EntryRef>, innerMaxPriority: uint32,
                       inner: Option<Tree>, next: Option<Tree>)

  /** Events on the table's writer mutex (`table->mutex`). */
  datatype MutexOp = Lock | Unlock

  /** `enum of1x_flow_removal_strictness`. */
  datatype Strictness = NotStrict | Strict

  /** `of1x_flow_remove_reason_t`. */
  datatype RemoveReason1x = IdleTimeout | HardTimeout | Delete | GroupDelete | NoReason

  class Leaf {
    var leafMatch: Match1x
    var entry: Option<EntryRef>
    var innerMaxPriority: uint32
    var inner: Leaf?
    var next: Leaf?
    var parent: Leaf?
    ghost var Repr: set<Leaf>
    ghost var model: Tree

    /** This leaf heads a finite tree in which no leaf is reachable twice. */
    ghost predicate Valid()
      reads this, Repr
      decreases Repr
    {
      && this in Repr
      && (inner != null ==>
            inner in Repr && inner.Repr <= Repr && this !in inner.Repr && inner.Valid())
      && (next != null ==>
            next in Repr && next.Repr <= Repr && this !in next.Repr && next.Valid())
      && (inner != null && next != null ==> inner.Repr !! next.Repr)
      && Repr == {this} + (if inner != null then inner.Repr else {})
                        + (if next != null then next.Repr else {})
      && model == Node(leafMatch, entry, innerMaxPriority,
                       if inner != null then Some(inner.model) else None,
                       if next != null then Some(next.model) else None)
    }
  }

  /** The leaves owned by `leaf`, none for NULL. */
  ghost function ReprOf(leaf: Leaf?): set<Leaf>
    reads leaf
  {
    if leaf == null then {} else leaf.Repr
  }

  /** `struct of1x_trie`: the root leaf and the list of entries without matches. */
  class Trie {
    var root: Leaf?
    var entry: Option<EntryRef>
    ghost var Repr: set<Leaf>

    ghost predicate Valid()
      reads this, Repr
    {
      && (root == null ==> Repr == {})
      && (root != null ==> root in Repr && root.Repr == Repr && root.Valid())
    }

    /** `platform_malloc_shared(sizeof(struct of1x_trie))`: the memory is not cleared, so `entry` holds `garbage`. */
    constructor Allocate(garbage: Option<EntryRef>)
      ensures entry == garbage && Repr == {}
    {
      entry := garbage;
      Repr := {};
    }
  }

  /** The parts of `struct of1x_flow_table` the trie uses: `matching_aux[0]` and the writer mutex. */
  class FlowTable {
    var aux: Trie?
    ghost var mutexLog: seq<MutexOp>
  }

  /**
   * `of1x_init_trie`: allocates the trie and sets its root to NULL.  The
   * allocation is not checked: when it fails, `trie->root = NULL` writes
   * through NULL.  Only `root` is initialised.
   */
  method InitTrie(table: FlowTable, allocOk: bool, garbage: Option<EntryRef>) returns (r: Outcome<RoflResult>)
    modifies table`aux
    ensures !allocOk ==> r == Undefined && table.aux == null
    ensures allocOk ==> r == Defined(Success)
    ensures allocOk ==> table.aux != null && fresh(table.aux) && table.aux.Valid()
    ensures allocOk ==> table.aux.root == null && table.aux.entry == garbage
  {
    if !allocOk {
      table.aux := null;
      return Undefined;
    }
    var trie := new Trie.Allocate(garbage);
    table.aux := trie;
    trie.root := null;
    r := Defined(Success);
  }

  /**
   * `of1x_init_trie` as evidently intended: besides the root, the list of
   * entries without matches starts empty (`trie->entry = NULL`), so a
   * lookup on the new trie starts from no candidate and threshold -1.
   */
  method InitTrieCleared(table: FlowTable, allocOk: bool) returns (r: Outcome<RoflResult>)
    modifies table`aux
    ensures !allocOk ==> r == Undefined && table.aux == null
    ensures allocOk ==> r == Defined(Success)
    ensures allocOk ==> table.aux != null && fresh(table.aux) && table.aux.Valid()
    ensures allocOk ==> table.aux.root == null && table.aux.entry == None
  {
    if !allocOk {
      table.aux := null;
      return Undefined;
    }
    var trie := new Trie.Allocate(None);
    table.aux := trie;
    trie.root := null;
    r := Defined(Success);
  }

  /** `freed` frees every leaf of `S`, nothing else, and none twice. */
  ghost predicate FreesEachOnce(freed: seq<Leaf>, S: set<Leaf>)
  {
    multiset(freed) == multiset(S)
  }

  /** `freed` first frees exactly the leaves of `I`, then exactly those of `N`. */
  ghost predicate FreedBefore(freed: seq<Leaf>, I: set<Leaf>, N: set<Leaf>)
  {
    |I| + |N| <= |freed| && FreesEachOnce(freed[..|I|], I) && FreesEachOnce(freed[|I|..|I| + |N|], N)
  }

  /** The order in which `of1x_destroy_leaf` frees: the `inner` subtree, then the `next` chain, then the leaf. */
  ghost function PostOrder(leaf: Leaf?): seq<Leaf>
    requires leaf != null ==> leaf.Valid()
    reads if leaf != null then leaf.Repr else {}
    decreases ReprOf(leaf)
  {
    if leaf == null then [] else PostOrder(leaf.inner) + PostOrder(leaf.next) + [leaf]
  }

  /**
   * `of1x_destroy_leaf`: nothing for NULL; otherwise the `inner` subtree,
   * then the `next` chain, then the leaf itself.  `freed` lists the calls to
   * `platform_free_shared` in order.
   */
  method DestroyLeaf(leaf: Leaf?) returns (freed: seq<Leaf>)
    requires leaf != null ==> leaf.Valid()
    ensures freed == PostOrder(leaf)
    decreases ReprOf(leaf)
  {
    if leaf == null {
      return [];
    }
    var innerFreed := DestroyLeaf(leaf.inner);
    var nextFreed := DestroyLeaf(leaf.next);
    freed := innerFreed + nextFreed + [leaf];
  }

  /**
   * The post-order frees every leaf of the tree exactly once, the leaf
   * itself last, and every leaf of `inner` before any leaf of `next`.
   */
  lemma {:induction false} PostOrderFreesEachOnce(leaf: Leaf?)
    requires leaf != null ==> leaf.Valid()
    ensures FreesEachOnce(PostOrder(leaf), ReprOf(leaf))
    ensures leaf != null ==> PostOrder(leaf)[|PostOrder(leaf)| - 1] == leaf
    ensures leaf != null ==> FreedBefore(PostOrder(leaf), ReprOf(leaf.inner), ReprOf(leaf.next))
    decreases ReprOf(leaf)
  {
    if leaf != null {
      PostOrderFreesEachOnce(leaf.inner);
      PostOrderFreesEachOnce(leaf.next);
      FreeOrderConcat(PostOrder(leaf.inner), PostOrder(leaf.next), leaf, ReprOf(leaf.inner), ReprOf(leaf.next));
    }
  }

  /** Freeing the inner subtree, then the next chain, then the leaf frees the whole tree once, inner before next. */
  lemma FreeOrderConcat(a: seq<Leaf>, b: seq<Leaf>, leaf: Leaf, I: set<Leaf>, N: set<Leaf>)
    requires FreesEachOnce(a, I) && FreesEachOnce(b, N)
    requires I !! N && leaf !in I && leaf !in N
    ensures FreesEachOnce(a + b + [leaf], {leaf} + I + N)
    ensures FreedBefore(a + b + [leaf], I, N)
  {
    var s := a + b + [leaf];
    assert multiset(s) == multiset(a) + multiset(b) + multiset{leaf};
    assert multiset({leaf} + I + N) == multiset{leaf} + multiset(I) + multiset(N) by {
      assert forall x :: x in {leaf} + I + N <==> x == leaf || x in I || x in N;
    }
    assert |a| == |I| && |b| == |N| by {
      assert |multiset(a)| == |a| && |multiset(I)| == |I|;
      assert |multiset(b)| == |b| && |multiset(N)| == |N|;
    }
    assert s[..|I|] == a;
    assert s[|I|..|I| + |N|] == b;
  }

  /**
   * `of1x_destroy_trie`: frees every leaf and the trie structure, and then
   * reports ROFL_FAILURE all the same.  `matching_aux[0]` is left dangling.
   */
  method DestroyTrie(table: FlowTable) returns (r: RoflResult, freedLeaves: seq<Leaf>, freedTrie: Trie)
    requires table.aux != null && table.aux.Valid()
    ensures r == Failure
    ensures freedLeaves == PostOrder(table.aux.root) && freedTrie == table.aux
    ensures FreesEachOnce(freedLeaves, table.aux.Repr)
  {
    var trie := table.aux;
    freedLeaves := DestroyLeaf(trie.root);
    PostOrderFreesEachOnce(trie.root);
    freedTrie := trie;
    r := Failure;
  }

  /** Where `of1x_find_overlap_reen_trie` finds its `prev` cursor: NULL itself, or pointing at `at`. */
  datatype LeafSlot = NullSlot | Slot(at: Leaf?)

  /**
   * The inputs on which `of1x_find_overlap_reen_trie` dereferences no NULL:
   * `prev` and `*prev` are non-NULL, `*next` is not `(*prev)->parent` (that
   * branch recurses with `prev == NULL`), and `*next` is non-NULL.
   */
  predicate OverlapFinderDefined(prev: LeafSlot, next: Leaf?)
    reads if prev.Slot? && prev.at != null then {prev.at} else {}
  {
    prev.Slot? && prev.at != null && next != prev.at.parent && next != null
  }

  /**
   * `of1x_find_overlap_reen_trie`: when defined, reports the entry stored at
   * `*next` (NULL or not) and leaves the cursor where it was; the candidate
   * `entry` is never read.
   */
  method FindOverlapReen(entry: EntryRef, prev: LeafSlot, next: Leaf?)
    returns (res: Outcome<Option<EntryRef>>, nextOut: Leaf?)
    ensures res.Defined? <==> OverlapFinderDefined(prev, next)
    ensures res.Defined? ==> next != null && res.value == next.entry && nextOut == next
    decreases if prev.Slot? then 1 else 0
  {
    if prev.NullSlot? || prev.at == null {
      return Undefined, next;
    }
    var curr := next;
    if curr == prev.at.parent {
      nextOut := prev.at.parent;
      res, nextOut := FindOverlapReen(entry, NullSlot, nextOut);
      return;
    }
    if curr == null {
      return Undefined, next;
    }
    res, nextOut := Defined(curr.entry), next;
  }

  /** `of1x_find_exact_trie`: a stub that never finds an entry. */
  function FindExactTrie(entry: EntryRef, leaf: Leaf?): (r: Option<EntryRef>)
    ensures r.None?
  {
    None
  }

  /**
   * `of1x_add_flow_entry_trie`.  Locks the table mutex; with `checkOverlap`
   * it calls the overlap finder with `prev` pointing at NULL and reports
   * OVERLAP when it returns an entry; it then asks the exact-match finder and,
   * on a hit, would update that entry (`updateResult` is the result of the
   * unseen `__of1x_update_flow_entry`); every exit goes through `ADD_END`,
   * which unlocks.  Nothing is inserted.  An `Undefined` result is the NULL
   * dereference inside the overlap finder, reached with the mutex held.
   */
  method AddFlowEntryTrie(table: FlowTable, entry: EntryRef, checkOverlap: bool, resetCounts: bool,
                          updateResult: RoflResult)
    returns (r: Outcome<FmResult>)
    requires table.aux != null && table.aux.Valid()
    modifies table`mutexLog
    ensures r.Defined? ==> table.mutexLog == old(table.mutexLog) + [Lock, Unlock]
    ensures r.Undefined? ==> table.mutexLog == old(table.mutexLog) + [Lock]
    ensures r.Undefined? <==> checkOverlap && !OverlapFinderDefined(Slot(null), table.aux.root)
    ensures r == Defined(FmOverlap) <==>
              checkOverlap && OverlapFinderDefined(Slot(null), table.aux.root) && table.aux.root.entry.Some?
    ensures r != Defined(FmFailure)
    ensures !checkOverlap ==> r == Defined(FmSuccess)
    ensures r.Undefined? <==> checkOverlap
    ensures r != Defined(FmOverlap)
  {
    var trie := table.aux;
    var prev: Leaf?, next: Leaf?;
    var res := FmSuccess;

    table.mutexLog := table.mutexLog + [Lock];

    label addEnd: {
      if checkOverlap {
        prev := null;
        next := trie.root;
        var found;
        found, next := FindOverlapReen(entry, Slot(prev), next);
        match found {
          case Undefined =>
            return Undefined;
          case Defined(overlapping) =>
            if overlapping.Some? {
              res := FmOverlap;
              break addEnd;
            }
        }
      }

      prev := null;
      next := trie.root;

      var currEntry := FindExactTrie(entry, next);
      if currEntry.Some? {
        if updateResult != Success {
          res := FmFailure;
          break addEnd;
        }
        break addEnd;
      }

      prev := null;
      next := trie.root;
    }

    table.mutexLog := table.mutexLog + [Unlock];
    r := Defined(res);
  }

  /** The add path always hands the overlap finder a `prev` that points at NULL. */
  lemma AddOverlapCheckDereferencesNull(root: Leaf?)
    ensures !OverlapFinderDefined(Slot(null), root)
  {
  }

  /** `of1x_modify_flow_entry_trie`: not implemented; reports failure. */
  function ModifyFlowEntryTrie(table: FlowTable, entry: EntryRef, strict: Strictness, resetCounts: bool): (r: RoflResult)
    ensures r == Failure
  {
    Failure
  }

  /** `of1x_remove_flow_entry_trie`: not implemented; reports failure. */
  function RemoveFlowEntryTrie(table: FlowTable, entry: EntryRef, specificEntry: Option<EntryRef>,
                               strict: Strictness, outPort: uint32, outGroup: uint32,
                               reason: RemoveReason1x, mutexAcquired: bool): (r: RoflResult)
    ensures r == Failure
  {
    Failure
  }

  /** `of1x_get_flow_stats_trie`: not implemented; reports failure and fills no message. */
  function GetFlowStatsTrie(table: FlowTable, cookie: bv64, cookieMask: bv64, outPort: uint32,
                            outGroup: uint32, matches: seq<Match1x>): (r: RoflResult)
    ensures r == Failure
  {
    Failure
  }

  /** `of1x_get_flow_aggregate_stats_trie`: not implemented; reports failure and fills no message. */
  function GetFlowAggregateStatsTrie(table: FlowTable, cookie: bv64, cookieMask: bv64, outPort: uint32,
                                     outGroup: uint32, matches: seq<Match1x>): (r: RoflResult)
    ensures r == Failure
  {
    Failure
  }

  /** `of1x_find_entry_using_group_trie`: not implemented; finds no entry. */
  function FindEntryUsingGroupTrie(table: FlowTable, groupId: nat): (r: Option<EntryRef>)
    ensures r.None?
  {
    None
  }
}
