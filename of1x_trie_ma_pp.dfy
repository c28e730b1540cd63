/**
 * The lock-free lookup of the trie matching algorithm (`of1x_trie_ma_pp.h`).
 *
 * `of1x_check_leaf_trie` walks a leaf, its `inner` subtree and its `next`
 * chain, and overwrites `*best_match` whenever a leaf passes the priority
 * gate, matches the packet and holds an entry.  The threshold
 * `*match_priority` is read but never written, so the whole walk prunes
 * against the value `of1x_find_best_match_trie_ma` starts it with.
 *
 * The walk is proved against `Walk`, a function on the leaf's ghost `Tree`,
 * and `Walk` against an independent reference: the result is the last
 * element of `Qualifying`, the pre-order list of the entries of qualifying
 * leaves, or the starting candidate when that list is empty.
 * `__of1x_check_match` is the packet-match oracle `cm`.
 */
module TrieLookup {
  import opened RoflTypes
  import opened TrieMA

  /** A `datapacket_t`; only the match oracle looks at it. */
  datatype Packet = Packet(headers: seq<nat>)

  /** The gate at a leaf: `(int64_t)leaf->inner_max_priority > *match_priority` and `__of1x_check_match(pkt, &leaf->match)`. */
  predicate Passes(t: Tree, pkt: Packet, threshold: int, cm: (Packet, Match1x) -> bool)
  {
    t.innerMaxPriority as int > threshold && cm(pkt, t.leafMatch)
  }

  /** The walk of `of1x_check_leaf_trie` on a tree value: the best match after visiting `t`, starting from `best`. */
  function Walk(t: Tree, pkt: Packet, threshold: int, best: Option<EntryRef>, cm: (Packet, Match1x) -> bool): Option<EntryRef>
    decreases t
  {
    var afterSelf :=
      if Passes(t, pkt, threshold, cm) then
        var own := if t.entry.Some? then t.entry else best;
        if t.inner.Some? then Walk(t.inner.value, pkt, threshold, own, cm) else own
      else best;
    if t.next.Some? then Walk(t.next.value, pkt, threshold, afterSelf, cm) else afterSelf
  }

  /** The entry of a leaf as a list of zero or one element. */
  function EntryList(e: Option<EntryRef>): seq<EntryRef>
  {
    if e.Some? then [e.value] else []
  }

  /** The last element of `s`, or `d` for the empty list. */
  function LastOr(s: seq<EntryRef>, d: Option<EntryRef>): Option<EntryRef>
  {
    if s == [] then d else Some(s[|s| - 1])
  }

  /**
   * Reference definition: the entries the walk can report, in pre-order
   * (the leaf, its `inner` subtree, its `next` chain), where a leaf and its
   * `inner` subtree are skipped unless the leaf passes the gate, and the
   * `next` chain is always visited.
   */
  function Qualifying(t: Tree, pkt: Packet, threshold: int, cm: (Packet, Match1x) -> bool): seq<EntryRef>
    decreases t
  {
    (if Passes(t, pkt, threshold, cm) then
       EntryList(t.entry) + (if t.inner.Some? then Qualifying(t.inner.value, pkt, threshold, cm) else [])
     else [])
    + (if t.next.Some? then Qualifying(t.next.value, pkt, threshold, cm) else [])
  }

  /** Every entry stored in the tree, in pre-order. */
  function Entries(t: Tree): seq<EntryRef>
    decreases t
  {
    EntryList(t.entry)
    + (if t.inner.Some? then Entries(t.inner.value) else [])
    + (if t.next.Some? then Entries(t.next.value) else [])
  }

  /** The entries of leaves that match the packet, pruned by the match alone (no priority gate). */
  function Matching(t: Tree, pkt: Packet, cm: (Packet, Match1x) -> bool): seq<EntryRef>
    decreases t
  {
    (if cm(pkt, t.leafMatch) then
       EntryList(t.entry) + (if t.inner.Some? then Matching(t.inner.value, pkt, cm) else [])
     else [])
    + (if t.next.Some? then Matching(t.next.value, pkt, cm) else [])
  }

  lemma LastOrAppend(a: seq<EntryRef>, b: seq<EntryRef>, d: Option<EntryRef>)
    ensures LastOr(a + b, d) == LastOr(b, LastOr(a, d))
  {
    if b != [] {
      assert (a + b)[|a + b| - 1] == b[|b| - 1];
    } else {
      assert a + b == a;
    }
  }

  /** The walk reports the last qualifying entry in pre-order, or its starting candidate when none qualifies. */
  lemma {:induction false} WalkIsLastQualifying(t: Tree, pkt: Packet, threshold: int, best: Option<EntryRef>,
                                                cm: (Packet, Match1x) -> bool)
    ensures Walk(t, pkt, threshold, best, cm) == LastOr(Qualifying(t, pkt, threshold, cm), best)
    decreases t
  {
    var innerQ := if t.inner.Some? then Qualifying(t.inner.value, pkt, threshold, cm) else [];
    var nextQ := if t.next.Some? then Qualifying(t.next.value, pkt, threshold, cm) else [];
    var selfQ := if Passes(t, pkt, threshold, cm) then EntryList(t.entry) + innerQ else [];
    var afterSelf :=
      if Passes(t, pkt, threshold, cm) then
        var own := if t.entry.Some? then t.entry else best;
        if t.inner.Some? then Walk(t.inner.value, pkt, threshold, own, cm) else own
      else best;
    if Passes(t, pkt, threshold, cm) {
      var own := if t.entry.Some? then t.entry else best;
      assert own == LastOr(EntryList(t.entry), best);
      if t.inner.Some? {
        WalkIsLastQualifying(t.inner.value, pkt, threshold, own, cm);
      }
      LastOrAppend(EntryList(t.entry), innerQ, best);
    }
    assert afterSelf == LastOr(selfQ, best);
    if t.next.Some? {
      WalkIsLastQualifying(t.next.value, pkt, threshold, afterSelf, cm);
    }
    LastOrAppend(selfQ, nextQ, best);
  }

  /** Only entries stored in the tree qualify. */
  lemma {:induction false} QualifyingAreStored(t: Tree, pkt: Packet, threshold: int, cm: (Packet, Match1x) -> bool)
    ensures forall e :: e in Qualifying(t, pkt, threshold, cm) ==> e in Entries(t)
    decreases t
  {
    if t.inner.Some? {
      QualifyingAreStored(t.inner.value, pkt, threshold, cm);
    }
    if t.next.Some? {
      QualifyingAreStored(t.next.value, pkt, threshold, cm);
    }
  }

  /**
   * With threshold -1 (no entry without matches) the priority gate passes at
   * every leaf, because `inner_max_priority` is unsigned: the walk is pruned
   * by the match alone.
   */
  lemma {:induction false} OpenGateAtMinusOne(t: Tree, pkt: Packet, cm: (Packet, Match1x) -> bool)
    ensures Qualifying(t, pkt, -1, cm) == Matching(t, pkt, cm)
    decreases t
  {
    assert Passes(t, pkt, -1, cm) == cm(pkt, t.leafMatch);
    if t.inner.Some? {
      OpenGateAtMinusOne(t.inner.value, pkt, cm);
    }
    if t.next.Some? {
      OpenGateAtMinusOne(t.next.value, pkt, cm);
    }
  }

  /**
   * The walk is not a highest-priority search: a root holding a priority-10
   * entry followed by a `next` leaf holding a priority-1 entry, both matching,
   * yields the priority-1 entry.
   */
  lemma LaterLowerPriorityWins()
    ensures
      var low := EntryRef(2, 1);
      var high := EntryRef(1, 10);
      var m := Match1x(0, 0, 0);
      var second := Node(m, Some(low), 1, None, None);
      var first := Node(m, Some(high), 10, None, Some(second));
      Walk(first, Packet([]), -1, None, (p: Packet, x: Match1x) => true) == Some(low)
      && high in Qualifying(first, Packet([]), -1, (p: Packet, x: Match1x) => true)
      && high.priority > low.priority
  {
  }

  /**
   * `of1x_check_leaf_trie`: visits `leaf`, then (when it passes the gate)
   * its `inner` subtree, then its `next` chain.  `priorityOut` is
   * `*match_priority` after the call: it is never written.
   */
  method CheckLeafTrie(pkt: Packet, leaf: Leaf, matchPriority: int, best: Option<EntryRef>,
                       cm: (Packet, Match1x) -> bool)
    returns (bestOut: Option<EntryRef>, priorityOut: int)
    requires leaf.Valid()
    ensures bestOut == Walk(leaf.model, pkt, matchPriority, best, cm)
    ensures bestOut == LastOr(Qualifying(leaf.model, pkt, matchPriority, cm), best)
    ensures priorityOut == matchPriority
    decreases leaf.Repr
  {
    bestOut, priorityOut := best, matchPriority;
    if leaf.innerMaxPriority as int > priorityOut {
      if cm(pkt, leaf.leafMatch) {
        if leaf.entry.Some? {
          bestOut := leaf.entry;
        }
        if leaf.inner != null {
          bestOut, priorityOut := CheckLeafTrie(pkt, leaf.inner, priorityOut, bestOut, cm);
        }
      }
    }
    if leaf.next != null {
      bestOut, priorityOut := CheckLeafTrie(pkt, leaf.next, priorityOut, bestOut, cm);
    }
    WalkIsLastQualifying(leaf.model, pkt, matchPriority, best, cm);
  }

  /** The threshold the lookup starts with: the priority of `trie->entry`, or -1 without one. */
  function StartThreshold(e: Option<EntryRef>): (p: int)
    ensures e.None? ==> p == -1
    ensures e.Some? ==> p == e.value.priority as int && p >= 0
  {
    if e.Some? then e.value.priority as int else -1
  }

  /**
   * `trie->entry` is never initialised by `of1x_init_trie`: uncleared memory
   * holding an entry of the largest priority raises the threshold above
   * every `inner_max_priority`, so no leaf qualifies and the lookup reports
   * that entry whatever the tree holds.
   */
  lemma {:induction false} UninitialisedEntryShadowsTree(t: Tree, pkt: Packet, cm: (Packet, Match1x) -> bool,
                                                         garbage: EntryRef)
    requires garbage.priority == 0xFFFF_FFFF
    ensures Qualifying(t, pkt, StartThreshold(Some(garbage)), cm) == []
    ensures LastOr(Qualifying(t, pkt, StartThreshold(Some(garbage)), cm), Some(garbage)) == Some(garbage)
    decreases t
  {
    assert !Passes(t, pkt, StartThreshold(Some(garbage)), cm);
    if t.next.Some? {
      UninitialisedEntryShadowsTree(t.next.value, pkt, cm, garbage);
    }
  }

  /**
   * With `trie->entry` cleared at initialisation, the lookup starts at
   * threshold -1 with no candidate: it reports the last entry, in pre-order,
   * at a leaf that matches the packet and all of whose `inner` ancestors
   * match (`Matching`), and only entries stored in the tree.
   */
  lemma ClearedEntryReportsOnlyStored(t: Tree, pkt: Packet, cm: (Packet, Match1x) -> bool)
    ensures LastOr(Qualifying(t, pkt, StartThreshold(None), cm), None) == LastOr(Matching(t, pkt, cm), None)
    ensures var r := LastOr(Qualifying(t, pkt, StartThreshold(None), cm), None);
            r.Some? ==> r.value in Entries(t)
  {
    OpenGateAtMinusOne(t, pkt, cm);
    QualifyingAreStored(t, pkt, -1, cm);
  }

  /**
   * `of1x_find_best_match_trie_ma`: starts from `trie->entry` (the entry
   * without matches) and its priority, and walks from the root.  The root is
   * dereferenced unchecked: a NULL root, which is all that initialisation and
   * the add path ever leave, is undefined.
   */
  method FindBestMatchTrie(table: FlowTable, pkt: Packet, cm: (Packet, Match1x) -> bool)
    returns (r: Outcome<Option<EntryRef>>)
    requires table.aux != null && table.aux.Valid()
    ensures table.aux.root == null ==> r == Undefined
    ensures table.aux.root != null ==>
      var trie := table.aux;
      var q := Qualifying(trie.root.model, pkt, StartThreshold(trie.entry), cm);
      && r.Defined?
      && r.value == LastOr(q, trie.entry)
      && (r.value.None? <==> trie.entry.None? && q == [])
      && (r.value.Some? ==> r.value == trie.entry || r.value.value in Entries(trie.root.model))
  {
    var trie := table.aux;
    var leaf := trie.root;
    var best := None;
    var matchPriority := -1;
    if trie.entry.Some? {
      best := trie.entry;
      matchPriority := trie.entry.value.priority as int;
    }
    if leaf == null {
      return Undefined;
    }
    best, matchPriority := CheckLeafTrie(pkt, leaf, matchPriority, best, cm);
    QualifyingAreStored(leaf.model, pkt, StartThreshold(trie.entry), cm);
    r := Defined(best);
  }

  /**
   * The lookup as evidently intended: the walk is guarded by `if (leaf)`, so
   * an empty trie reports `trie->entry` and a non-empty one behaves as
   * `FindBestMatchTrie`.
   */
  method FindBestMatchTrieGuarded(table: FlowTable, pkt: Packet, cm: (Packet, Match1x) -> bool)
    returns (best: Option<EntryRef>)
    requires table.aux != null && table.aux.Valid()
    ensures table.aux.root == null ==> best == table.aux.entry
    ensures table.aux.root != null ==>
      var trie := table.aux;
      var q := Qualifying(trie.root.model, pkt, StartThreshold(trie.entry), cm);
      && best == LastOr(q, trie.entry)
      && (best.None? <==> trie.entry.None? && q == [])
      && (best.Some? ==> best == trie.entry || best.value in Entries(trie.root.model))
  {
    var trie := table.aux;
    var leaf := trie.root;
    best := None;
    var matchPriority := -1;
    if trie.entry.Some? {
      best := trie.entry;
      matchPriority := trie.entry.value.priority as int;
    }
    if leaf != null {
      best, matchPriority := CheckLeafTrie(pkt, leaf, matchPriority, best, cm);
      QualifyingAreStored(leaf.model, pkt, StartThreshold(trie.entry), cm);
    }
  }
}
