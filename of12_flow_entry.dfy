/**
 * OpenFlow 1.2 flow entries (`of12_flow_entry.c`): creation, destruction
 * with an optional flow-removed notification, adding matches, updating
 * instructions, the overlap / containment / equality checks used by flow-mod
 * processing, and the group check done before insertion.
 *
 * An entry is a heap object (`class FlowEntry`) whose match chain, counters
 * and instruction group are fields.  The match chain is the sequence of its
 * matches in list order; action lists and write-action arrays are sequences
 * of actions.  Routines whose bodies are not part of this model
 * (`of12_is_submatch`, `of12_equal_matches`, `of12_add_match`,
 * `of12_write_actions_has`, `of12_apply_actions_has`, `of12_group_search`,
 * `of12_update_instructions`) are function-valued parameters, left
 * uninterpreted.  Frees, lock operations and notifications are ghost
 * events or returned values.
 */
module OF12FlowEntry {
  import opened RoflTypes

  /** `OF12_PORT_ANY` (OFPP_ANY of OpenFlow 1.2): no out-port restriction. */
  const OF12_PORT_ANY: uint32 := 0xFFFF_FFFF

  /** `OF12_GROUP_ANY` (OFPG_ANY of OpenFlow 1.2): no out-group restriction. */
  const OF12_GROUP_ANY: uint32 := 0xFFFF_FFFF

  /** An `of12_match_t` of the chain: its type and an opaque value; the bit-level encoding is not modelled. */
  datatype Match12 = Match12(kind: nat, value: nat, mask: nat)

  /** `of12_packet_action_type_t`, reduced to the two types the file examines. */
  datatype ActionKind = AtOutput | AtGroup | AtOther(code: nat)

  /** An `of12_group_t*` found by `of12_group_search`. */
  datatype GroupRef = GroupRef(id: nat)

  /** An `of12_packet_action_t`: type, `field` argument and the resolved `group` pointer. */
  datatype PacketAction = PacketAction(kind: ActionKind, field: nat, group: Option<GroupRef>)

  /** `of12_instruction_type_t`, in declaration order. */
  datatype InstructionType =
    NoInstruction | ApplyActions | ClearActions | WriteActionsType | WriteMetadata | Experimenter | GotoTable

  /** An `of12_instruction_t`: its type, the `apply_actions` list and the `write_actions` array (NULL is `None`). */
  datatype Instruction = Instruction(kind: InstructionType,
                                     applyActions: Option<seq<PacketAction>>,
                                     writeActions: Option<seq<PacketAction>>)

  const OF12_IT_APPLY_ACTIONS: nat := 1
  const OF12_IT_WRITE_ACTIONS: nat := 3
  const OF12_IT_GOTO_TABLE: nat := 6
  /** The number of slots of `inst_grp.instructions`, one per instruction type. */
  const OF12_IT_MAX: nat := 7

  const NO_INSTRUCTION: Instruction := Instruction(NoInstruction, None, None)

  /** `of12_instruction_group_t`: the instruction array indexed by instruction type. */
  type InstructionSlots = s: seq<Instruction> | |s| == OF12_IT_MAX
    witness [NO_INSTRUCTION, NO_INSTRUCTION, NO_INSTRUCTION, NO_INSTRUCTION,
             NO_INSTRUCTION, NO_INSTRUCTION, NO_INSTRUCTION]

  /** The instruction group of a fresh entry: every slot empty. */
  const EMPTY_INSTRUCTIONS: InstructionSlots :=
    [NO_INSTRUCTION, NO_INSTRUCTION, NO_INSTRUCTION, NO_INSTRUCTION,
     NO_INSTRUCTION, NO_INSTRUCTION, NO_INSTRUCTION]

  /** The packet and byte counters of an entry (`of12_flow_entry_t.stats`). */
  datatype FlowStats = FlowStats(packetCount: nat, byteCount: nat)

  /** `of12_flow_remove_reason_t`. */
  datatype RemovalReason = IdleTimeout | HardTimeout | Delete | GroupDelete | NoReason

  /** The `table->pipeline->sw` chain an entry is attached to; every link may be NULL. */
  datatype SwitchRef = SwitchRef(dpid: nat)
  datatype PipelineRef = PipelineRef(sw: Option<SwitchRef>)
  datatype TableRef = TableRef(pipeline: Option<PipelineRef>)

  /** A call `platform_of12_notify_flow_removed(sw, reason, entry)`. */
  datatype Notification = Notification(sw: SwitchRef, reason: RemovalReason)

  /** Operations on an entry's `rwlock`. */
  datatype RwLockOp = WrLock | WrUnlock | LockDestroyed

  /** `of12_write_actions_has` and `of12_apply_actions_has`: does the action set hold an action of this type and argument. */
  datatype ActionOracles = ActionOracles(
    writeActionsHas: (Option<seq<PacketAction>>, ActionKind, uint32) -> bool,
    applyActionsHas: (Option<seq<PacketAction>>, ActionKind, uint32) -> bool)

  /** `of12_flow_entry_t`. */
  class FlowEntry {
    var prev: FlowEntry?
    var next: FlowEntry?
    var matches: seq<Match12>
    var numOfMatches: nat
    var priority: uint32
    var cookie: bv64
    var cookieMask: bv64
    var instructions: InstructionSlots
    var stats: FlowStats
    var notifyRemoval: bool
    var table: Option<TableRef>
    ghost var rwlockLog: seq<RwLockOp>
    ghost var freed: bool

    /** `memset(entry, 0, sizeof(of12_flow_entry_t))` on fresh memory. */
    constructor Zeroed()
      ensures prev == null && next == null && matches == [] && numOfMatches == 0
      ensures priority == 0 && cookie == 0 && cookieMask == 0
      ensures instructions == EMPTY_INSTRUCTIONS && stats == FlowStats(0, 0)
      ensures !notifyRemoval && table == None && rwlockLog == [] && !freed
    {
      prev, next := null, null;
      matches, numOfMatches := [], 0;
      priority, cookie, cookieMask := 0, 0, 0;
      instructions := EMPTY_INSTRUCTIONS;
      stats := FlowStats(0, 0);
      notifyRemoval, table := false, None;
      rwlockLog, freed := [], false;
    }
  }

  /** `num_of_matches` counts the match chain. */
  ghost predicate CountIsLength(e: FlowEntry)
    reads e
  {
    e.numOfMatches == |e.matches|
  }

  /**
   * `of12_init_flow_entry`: NULL when the allocation or the rwlock creation
   * fails; otherwise a fresh entry, zeroed but for `prev`, `next` and
   * `notify_removal`, with empty instructions and zero counters.
   */
  method InitFlowEntry(prev: FlowEntry?, next: FlowEntry?, notifyRemoval: bool, allocOk: bool, rwlockOk: bool)
    returns (entry: FlowEntry?)
    ensures !allocOk || !rwlockOk ==> entry == null
    ensures allocOk && rwlockOk ==> entry != null && fresh(entry)
    ensures entry != null ==>
      && entry.prev == prev && entry.next == next && entry.notifyRemoval == notifyRemoval
      && entry.matches == [] && entry.numOfMatches == 0 && entry.priority == 0
      && entry.cookie == 0 && entry.cookieMask == 0
      && entry.instructions == EMPTY_INSTRUCTIONS && entry.stats == FlowStats(0, 0)
      && entry.table == None && entry.rwlockLog == [] && !entry.freed
    ensures entry != null ==> CountIsLength(entry)
  {
    if !allocOk {
      return null;
    }
    var e := new FlowEntry.Zeroed();
    if !rwlockOk {
      e.freed := true;
      return null;
    }
    e.prev := prev;
    e.next := next;
    e.notifyRemoval := notifyRemoval;
    entry := e;
  }

  /** The switch to notify: `entry->table->pipeline->sw`, when every link is non-NULL. */
  function SwitchOf(table: Option<TableRef>): Option<SwitchRef>
  {
    match table
    case None => None
    case Some(t) =>
      match t.pipeline
      case None => None
      case Some(p) => p.sw
  }

  /**
   * `of12_destroy_flow_entry_with_reason`: write-locks the entry, notifies
   * the switch when `notify_removal` holds, the reason is not NO_REASON and
   * the table, pipeline and switch are all set, frees every match of the
   * chain in order, destroys the lock, frees the entry and returns SUCCESS.
   */
  method DestroyWithReason(entry: FlowEntry, reason: RemovalReason)
    returns (r: RoflResult, freedMatches: seq<Match12>, notified: Option<Notification>)
    requires !entry.freed
    modifies entry`rwlockLog, entry`freed
    ensures r == Success
    ensures freedMatches == entry.matches
    ensures notified.Some? <==> entry.notifyRemoval && reason != NoReason && SwitchOf(entry.table).Some?
    ensures notified.Some? ==> notified.value == Notification(SwitchOf(entry.table).value, reason)
    ensures entry.rwlockLog == old(entry.rwlockLog) + [WrLock, LockDestroyed]
    ensures entry.freed
  {
    var chain := entry.matches;
    entry.rwlockLog := entry.rwlockLog + [WrLock];
    notified := None;
    if entry.notifyRemoval && reason != NoReason {
      if entry.table.Some? && entry.table.value.pipeline.Some? && entry.table.value.pipeline.value.sw.Some? {
        notified := Some(Notification(entry.table.value.pipeline.value.sw.value, reason));
      }
    }
    freedMatches := [];
    var k := 0;
    while k < |chain|
      invariant 0 <= k <= |chain|
      invariant freedMatches == chain[..k]
    {
      freedMatches := freedMatches + [chain[k]];
      k := k + 1;
    }
    entry.rwlockLog := entry.rwlockLog + [LockDestroyed];
    entry.freed := true;
    r := Success;
  }

  /** `of12_destroy_flow_entry`: destruction with NO_REASON, which never notifies. */
  method DestroyFlowEntry(entry: FlowEntry) returns (r: RoflResult, freedMatches: seq<Match12>, notified: Option<Notification>)
    requires !entry.freed
    modifies entry`rwlockLog, entry`freed
    ensures r == Success && notified == None
    ensures freedMatches == entry.matches
    ensures entry.rwlockLog == old(entry.rwlockLog) + [WrLock, LockDestroyed] && entry.freed
  {
    r, freedMatches, notified := DestroyWithReason(entry, NoReason);
  }

  /** The counting loop of `of12_add_match_to_entry`: walks the chain through `next` to its end. */
  method CountChain(chain: seq<Match12>) returns (newMatches: nat)
    ensures newMatches == |chain|
  {
    newMatches := 0;
    var rest := chain;
    while rest != []
      invariant newMatches + |rest| == |chain|
      decreases |rest|
    {
      rest := rest[1..];
      newMatches := newMatches + 1;
    }
  }

  /**
   * `of12_add_match_to_entry`: FAILURE for a NULL chain; an entry without
   * matches adopts the chain and its count restarts at 0; otherwise
   * `of12_add_match` (`addMatch`) links the chain into the existing list.
   * Either way the count then grows by the chain's length.
   */
  method AddMatchToEntry(entry: FlowEntry, chain: seq<Match12>,
                         addMatch: (seq<Match12>, seq<Match12>) -> seq<Match12>)
    returns (r: RoflResult)
    modifies entry`matches, entry`numOfMatches
    ensures chain == [] ==> r == Failure && entry.matches == old(entry.matches)
                            && entry.numOfMatches == old(entry.numOfMatches)
    ensures chain != [] ==> r == Success
    ensures chain != [] && old(entry.matches) == [] ==>
      entry.matches == chain && entry.numOfMatches == |chain|
    ensures chain != [] && old(entry.matches) != [] ==>
      entry.matches == addMatch(old(entry.matches), chain)
      && entry.numOfMatches == old(entry.numOfMatches) + |chain|
    ensures old(CountIsLength(entry)) && (old(entry.matches) == [] || addMatch(old(entry.matches), chain) == old(entry.matches) + chain)
      ==> CountIsLength(entry)
  {
    if chain == [] {
      return Failure;
    }
    if entry.matches != [] {
      entry.matches := addMatch(entry.matches, chain);
    } else {
      entry.matches := chain;
      entry.numOfMatches := 0;
    }
    var newMatches := CountChain(chain);
    entry.numOfMatches := entry.numOfMatches + newMatches;
    r := Success;
  }

  /**
   * `of12_update_flow_entry`: under the target's write lock, copies the
   * instructions of `mod` into the target (`updateInstructions` stands for
   * `of12_update_instructions`) and zeroes its counters when `resetCounts`;
   * then destroys `mod` with NO_REASON.  Matches, priority and cookie of the
   * target are not touched.
   */
  method UpdateFlowEntry(target: FlowEntry, mod: FlowEntry, resetCounts: bool,
                         updateInstructions: (InstructionSlots, InstructionSlots) -> InstructionSlots)
    returns (r: RoflResult, modFreedMatches: seq<Match12>, notified: Option<Notification>)
    requires target != mod && !mod.freed
    modifies target`instructions, target`stats, target`rwlockLog, mod`rwlockLog, mod`freed
    ensures r == Success && notified == None
    ensures target.instructions == updateInstructions(old(target.instructions), old(mod.instructions))
    ensures resetCounts ==> target.stats == FlowStats(0, 0)
    ensures !resetCounts ==> target.stats == old(target.stats)
    ensures target.matches == old(target.matches) && target.numOfMatches == old(target.numOfMatches)
    ensures target.priority == old(target.priority) && target.cookie == old(target.cookie)
    ensures target.cookieMask == old(target.cookieMask)
    ensures target.rwlockLog == old(target.rwlockLog) + [WrLock, WrUnlock]
    ensures mod.freed && modFreedMatches == mod.matches
  {
    target.rwlockLog := target.rwlockLog + [WrLock];
    target.instructions := updateInstructions(target.instructions, mod.instructions);
    if resetCounts {
      target.stats := FlowStats(0, 0);
    }
    target.rwlockLog := target.rwlockLog + [WrUnlock];
    r, modFreedMatches, notified := DestroyWithReason(mod, NoReason);
    r := Success;
  }

  /**
   * The cookie test opening the three checks, as written: with the test on
   * and a non-zero cookie on the filtering entry, the check fails when the
   * masked cookies are EQUAL.
   */
  predicate CookieRejects(checkCookie: bool, filterCookie: bv64, filterMask: bv64, cookie: bv64)
  {
    checkCookie && filterCookie != 0 && filterCookie & filterMask == cookie & filterMask
  }

  /** One pass of the inner loop of `check_overlap`: `m` is comparable with every same-type match of `os`. */
  function ComparableWithAll(m: Match12, os: seq<Match12>, sub: (Match12, Match12) -> bool): (r: bool)
    ensures r <==> forall j :: 0 <= j < |os| && m.kind == os[j].kind ==> sub(m, os[j]) || sub(os[j], m)
    decreases |os|
  {
    if os == [] then true
    else if m.kind == os[0].kind && !sub(m, os[0]) && !sub(os[0], m) then false
    else ComparableWithAll(m, os[1..], sub)
  }

  /** The nested loops of `check_overlap`: every same-type pair is a submatch in one direction or the other. */
  function AllComparable(es: seq<Match12>, os: seq<Match12>, sub: (Match12, Match12) -> bool): (r: bool)
    ensures r <==> forall i, j :: 0 <= i < |es| && 0 <= j < |os| && es[i].kind == os[j].kind ==>
                                  sub(es[i], os[j]) || sub(os[j], es[i])
    decreases |es|
  {
    if es == [] then true
    else if !ComparableWithAll(es[0], os, sub) then false
    else
      var rest := AllComparable(es[1..], os, sub);
      assert forall i :: 1 <= i < |es| ==> es[i] == es[1..][i - 1];
      rest
  }

  /** One pass of the inner loop of `check_contained`: `m` is a submatch of every same-type match of `os`. */
  function ContainedInAll(m: Match12, os: seq<Match12>, sub: (Match12, Match12) -> bool): (r: bool)
    ensures r <==> forall j :: 0 <= j < |os| && m.kind == os[j].kind ==> sub(m, os[j])
    decreases |os|
  {
    if os == [] then true
    else if m.kind == os[0].kind && !sub(m, os[0]) then false
    else ContainedInAll(m, os[1..], sub)
  }

  /** The nested loops of `check_contained`: every same-type pair has the subentry's match as submatch. */
  function AllContained(ss: seq<Match12>, os: seq<Match12>, sub: (Match12, Match12) -> bool): (r: bool)
    ensures r <==> forall i, j :: 0 <= i < |ss| && 0 <= j < |os| && ss[i].kind == os[j].kind ==> sub(ss[i], os[j])
    decreases |ss|
  {
    if ss == [] then true
    else if !ContainedInAll(ss[0], os, sub) then false
    else
      var rest := AllContained(ss[1..], os, sub);
      assert forall i :: 1 <= i < |ss| ==> ss[i] == ss[1..][i - 1];
      rest
  }

  /**
   * The out-group and out-port filters shared by the three checks: unless
   * ANY, the write-actions or the apply-actions of `insts` must hold a GROUP
   * (resp. OUTPUT) action with that argument.
   */
  predicate PassesOutFilters(insts: InstructionSlots, outPort: uint32, outGroup: uint32, acts: ActionOracles)
  {
    && (outGroup == OF12_GROUP_ANY
        || acts.writeActionsHas(insts[OF12_IT_WRITE_ACTIONS].writeActions, AtGroup, outGroup)
        || acts.applyActionsHas(insts[OF12_IT_APPLY_ACTIONS].applyActions, AtGroup, outGroup))
    && (outPort == OF12_PORT_ANY
        || acts.writeActionsHas(insts[OF12_IT_WRITE_ACTIONS].writeActions, AtOutput, outPort)
        || acts.applyActionsHas(insts[OF12_IT_APPLY_ACTIONS].applyActions, AtOutput, outPort))
  }

  /**
   * `of12_flow_entry_check_overlap`: the cookie test (as written), the
   * priority test when asked, comparability of every same-type match pair,
   * and the out filters on `entry`'s instructions.
   */
  function CheckOverlap(original: FlowEntry, entry: FlowEntry, checkPriority: bool, checkCookie: bool,
                        outPort: uint32, outGroup: uint32,
                        sub: (Match12, Match12) -> bool, acts: ActionOracles): (r: bool)
    reads original, entry
    ensures r <==>
      && !CookieRejects(checkCookie, entry.cookie, entry.cookieMask, original.cookie)
      && (checkPriority ==> entry.priority == original.priority)
      && (forall i, j :: 0 <= i < |entry.matches| && 0 <= j < |original.matches|
                         && entry.matches[i].kind == original.matches[j].kind ==>
                         sub(entry.matches[i], original.matches[j]) || sub(original.matches[j], entry.matches[i]))
      && PassesOutFilters(entry.instructions, outPort, outGroup, acts)
  {
    if CookieRejects(checkCookie, entry.cookie, entry.cookieMask, original.cookie) then false
    else if checkPriority && entry.priority != original.priority then false
    else if !AllComparable(entry.matches, original.matches, sub) then false
    else PassesOutFilters(entry.instructions, outPort, outGroup, acts)
  }

  /**
   * `of12_flow_entry_check_contained`: the cookie test (as written), the
   * priority test when asked, every same-type match of `subentry` a submatch
   * of `original`'s, and the out filters on `original`'s instructions.
   */
  function CheckContained(original: FlowEntry, subentry: FlowEntry, checkPriority: bool, checkCookie: bool,
                          outPort: uint32, outGroup: uint32,
                          sub: (Match12, Match12) -> bool, acts: ActionOracles): (r: bool)
    reads original, subentry
    ensures r <==>
      && !CookieRejects(checkCookie, subentry.cookie, subentry.cookieMask, original.cookie)
      && (checkPriority ==> original.priority == subentry.priority)
      && (forall i, j :: 0 <= i < |subentry.matches| && 0 <= j < |original.matches|
                         && subentry.matches[i].kind == original.matches[j].kind ==>
                         sub(subentry.matches[i], original.matches[j]))
      && PassesOutFilters(original.instructions, outPort, outGroup, acts)
  {
    if CookieRejects(checkCookie, subentry.cookie, subentry.cookieMask, original.cookie) then false
    else if checkPriority && original.priority != subentry.priority then false
    else if !AllContained(subentry.matches, original.matches, sub) then false
    else PassesOutFilters(original.instructions, outPort, outGroup, acts)
  }

  /**
   * The positional walk of `check_equal`, driven by `entry`'s list: it stops
   * with false at the first unequal pair.  When `original`'s list is shorter
   * and equal so far, `it_original` is NULL at the next step and is still
   * handed to `of12_equal_matches` (`eq(None, _)`); if that call answers
   * false the walk stops with false, otherwise the loop's `it_original->next`
   * dereferences NULL (`Undefined`).
   */
  function EqualWalk(os: seq<Match12>, es: seq<Match12>, eq: (Option<Match12>, Match12) -> bool): (r: Outcome<bool>)
    ensures r == Defined(true) <==> |es| <= |os| && forall k :: 0 <= k < |es| ==> eq(Some(os[k]), es[k])
    ensures r == Undefined <==>
      |os| < |es| && (forall k :: 0 <= k < |os| ==> eq(Some(os[k]), es[k])) && eq(None, es[|os|])
    decreases |es|
  {
    if es == [] then Defined(true)
    else if os == [] then (if eq(None, es[0]) then Undefined else Defined(false))
    else if !eq(Some(os[0]), es[0]) then Defined(false)
    else
      var rest := EqualWalk(os[1..], es[1..], eq);
      assert forall k :: 1 <= k < |es| && k < |os| ==> os[k] == os[1..][k - 1] && es[k] == es[1..][k - 1];
      assert |os| < |es| ==> es[|os|] == es[1..][|os[1..]|];
      rest
  }

  /**
   * `of12_flow_entry_check_equal`: the cookie test (always on, as written),
   * equal priorities, equal `num_of_matches`, the positional walk, then the
   * out filters on `original`'s instructions.
   */
  function CheckEqual(original: FlowEntry, entry: FlowEntry, outPort: uint32, outGroup: uint32,
                      eq: (Option<Match12>, Match12) -> bool, acts: ActionOracles): (r: Outcome<bool>)
    reads original, entry
    ensures r == Undefined <==>
      && !CookieRejects(true, entry.cookie, entry.cookieMask, original.cookie)
      && entry.priority == original.priority && original.numOfMatches == entry.numOfMatches
      && |original.matches| < |entry.matches|
      && (forall k :: 0 <= k < |original.matches| ==> eq(Some(original.matches[k]), entry.matches[k]))
      && eq(None, entry.matches[|original.matches|])
    ensures r == Defined(true) <==>
      && !CookieRejects(true, entry.cookie, entry.cookieMask, original.cookie)
      && entry.priority == original.priority && original.numOfMatches == entry.numOfMatches
      && |entry.matches| <= |original.matches|
      && (forall k :: 0 <= k < |entry.matches| ==> eq(Some(original.matches[k]), entry.matches[k]))
      && PassesOutFilters(original.instructions, outPort, outGroup, acts)
  {
    if CookieRejects(true, entry.cookie, entry.cookieMask, original.cookie) then Defined(false)
    else if entry.priority != original.priority then Defined(false)
    else if original.numOfMatches != entry.numOfMatches then Defined(false)
    else
      match EqualWalk(original.matches, entry.matches, eq)
      case Undefined => Undefined
      case Defined(same) =>
        if !same then Defined(false)
        else Defined(PassesOutFilters(original.instructions, outPort, outGroup, acts))
  }

  /** With both tests off and no out filter, overlap does not depend on which entry is the original. */
  lemma OverlapSymmetric(a: FlowEntry, b: FlowEntry, sub: (Match12, Match12) -> bool, acts: ActionOracles)
    ensures CheckOverlap(a, b, false, false, OF12_PORT_ANY, OF12_GROUP_ANY, sub, acts)
         == CheckOverlap(b, a, false, false, OF12_PORT_ANY, OF12_GROUP_ANY, sub, acts)
  {
    var ab := CheckOverlap(a, b, false, false, OF12_PORT_ANY, OF12_GROUP_ANY, sub, acts);
    var ba := CheckOverlap(b, a, false, false, OF12_PORT_ANY, OF12_GROUP_ANY, sub, acts);
    if ab {
      forall i, j | 0 <= i < |a.matches| && 0 <= j < |b.matches| && a.matches[i].kind == b.matches[j].kind
        ensures sub(a.matches[i], b.matches[j]) || sub(b.matches[j], a.matches[i])
      {
        assert b.matches[j].kind == a.matches[i].kind;
      }
    }
    if ba {
      forall i, j | 0 <= i < |b.matches| && 0 <= j < |a.matches| && b.matches[i].kind == a.matches[j].kind
        ensures sub(b.matches[i], a.matches[j]) || sub(a.matches[j], b.matches[i])
      {
        assert a.matches[j].kind == b.matches[i].kind;
      }
    }
  }

  /**
   * Without out filters, an entry contained in `original` also overlaps it:
   * a submatch in one direction is a submatch in one direction or the other.
   */
  lemma ContainedImpliesOverlap(original: FlowEntry, subentry: FlowEntry, checkPriority: bool, checkCookie: bool,
                                sub: (Match12, Match12) -> bool, acts: ActionOracles)
    requires CheckContained(original, subentry, checkPriority, checkCookie, OF12_PORT_ANY, OF12_GROUP_ANY, sub, acts)
    ensures CheckOverlap(original, subentry, checkPriority, checkCookie, OF12_PORT_ANY, OF12_GROUP_ANY, sub, acts)
  {
  }

  /**
   * The out filters of `check_overlap` read `entry`'s instructions and those
   * of `check_contained` and `check_equal` read `original`'s: the other
   * entry's instructions never matter.
   */
  lemma OutFiltersReadOneSide(o1: FlowEntry, o2: FlowEntry, e1: FlowEntry, e2: FlowEntry,
                              checkPriority: bool, checkCookie: bool, outPort: uint32, outGroup: uint32,
                              sub: (Match12, Match12) -> bool, eq: (Option<Match12>, Match12) -> bool, acts: ActionOracles)
    requires o1.matches == o2.matches && o1.priority == o2.priority && o1.cookie == o2.cookie
    requires o1.numOfMatches == o2.numOfMatches
    requires e1.matches == e2.matches && e1.priority == e2.priority && e1.cookie == e2.cookie
    requires e1.cookieMask == e2.cookieMask && e1.numOfMatches == e2.numOfMatches
    ensures e1.instructions == e2.instructions ==>
      CheckOverlap(o1, e1, checkPriority, checkCookie, outPort, outGroup, sub, acts)
      == CheckOverlap(o2, e2, checkPriority, checkCookie, outPort, outGroup, sub, acts)
    ensures o1.instructions == o2.instructions ==>
      CheckContained(o1, e1, checkPriority, checkCookie, outPort, outGroup, sub, acts)
      == CheckContained(o2, e2, checkPriority, checkCookie, outPort, outGroup, sub, acts)
    ensures o1.instructions == o2.instructions ==>
      CheckEqual(o1, e1, outPort, outGroup, eq, acts) == CheckEqual(o2, e2, outPort, outGroup, eq, acts)
  {
  }

  /** When both counts are the lengths of the chains, the walk of `check_equal` never reads past `original`'s list. */
  lemma EqualDefinedWhenCountsAreLengths(original: FlowEntry, entry: FlowEntry, outPort: uint32, outGroup: uint32,
                                         eq: (Option<Match12>, Match12) -> bool, acts: ActionOracles)
    requires CountIsLength(original) && CountIsLength(entry)
    ensures CheckEqual(original, entry, outPort, outGroup, eq, acts).Defined?
  {
  }

  /**
   * As written, the cookie test rejects an entry carrying the very cookie of
   * the filtering entry: it fails whenever the masked cookies agree.
   */
  lemma SameCookieIsRejected(original: FlowEntry, entry: FlowEntry, checkPriority: bool,
                             outPort: uint32, outGroup: uint32,
                             sub: (Match12, Match12) -> bool, eq: (Option<Match12>, Match12) -> bool, acts: ActionOracles)
    requires entry.cookie != 0 && original.cookie == entry.cookie
    ensures !CheckOverlap(original, entry, checkPriority, true, outPort, outGroup, sub, acts)
    ensures !CheckContained(original, entry, checkPriority, true, outPort, outGroup, sub, acts)
    ensures CheckEqual(original, entry, outPort, outGroup, eq, acts) == Defined(false)
  {
  }

  /**
   * The cookie restriction of OpenFlow 1.2 (section A.3.4.1): with a filter
   * cookie, only entries whose cookie agrees with it under the mask are
   * selected.
   */
  predicate CookieSelects(checkCookie: bool, filterCookie: bv64, filterMask: bv64, cookie: bv64)
  {
    !checkCookie || filterCookie & filterMask == cookie & filterMask
  }

  /**
   * The intended cookie test selects an entry holding the filter's own cookie
   * and, under an all-zero mask, every entry.  For a non-zero filter cookie,
   * the as-written test always rejects an entry holding that very cookie,
   * and rejects exactly the entries the intended test selects.
   */
  lemma CookieFilterInverted(c: bv64, mask: bv64, other: bv64)
    ensures CookieSelects(true, c, mask, c)
    ensures CookieSelects(true, c, 0, other)
    ensures c != 0 ==> CookieRejects(true, c, mask, c)
    ensures c != 0 ==> (CookieRejects(true, c, mask, other) <==> CookieSelects(true, c, mask, other))
  {
  }

  // ---------------------------------------------------------------------
  // Group resolution (`of12_validate_flow_entry`)
  // ---------------------------------------------------------------------

  /** A GROUP action whose group `of12_group_search` does not find. */
  predicate Unresolved(a: PacketAction, search: nat -> Option<GroupRef>)
  {
    a.kind == AtGroup && search(a.field).None?
  }

  /** The write `pa_it->group = of12_group_search(gt, pa_it->field)` done on a GROUP action. */
  function Resolve(a: PacketAction, search: nat -> Option<GroupRef>): PacketAction
  {
    if a.kind == AtGroup then a.(group := search(a.field)) else a
  }

  /** The position of the first unresolved GROUP action, or the length when there is none. */
  function FirstMiss(acts: seq<PacketAction>, search: nat -> Option<GroupRef>): (k: nat)
    ensures k <= |acts|
    ensures forall j :: 0 <= j < k ==> !Unresolved(acts[j], search)
    ensures k < |acts| ==> Unresolved(acts[k], search)
    decreases |acts|
  {
    if acts == [] then 0
    else if Unresolved(acts[0], search) then 0
    else
      var k := 1 + FirstMiss(acts[1..], search);
      assert forall j :: 1 <= j < |acts| ==> acts[j] == acts[1..][j - 1];
      k
  }

  /** `acts` with its first `n` actions resolved and the rest untouched. */
  function ResolvePrefix(acts: seq<PacketAction>, search: nat -> Option<GroupRef>, n: nat): seq<PacketAction>
    requires n <= |acts|
  {
    seq(|acts|, j requires 0 <= j < |acts| => if j < n then Resolve(acts[j], search) else acts[j])
  }

  /**
   * One action set as the loop of `validate` leaves it: resolved up to and
   * including the first miss, which makes the routine return FAILURE; fully
   * resolved when there is no miss.
   */
  function ResolveList(acts: seq<PacketAction>, search: nat -> Option<GroupRef>): (bool, seq<PacketAction>)
  {
    var k := FirstMiss(acts, search);
    if k < |acts| then (false, ResolvePrefix(acts, search, k + 1)) else (true, ResolvePrefix(acts, search, |acts|))
  }

  /** The inner loops of `validate` over one action list or write-action array. */
  method ResolveGroupActions(acts: seq<PacketAction>, search: nat -> Option<GroupRef>)
    returns (ok: bool, resolved: seq<PacketAction>)
    ensures (ok, resolved) == ResolveList(acts, search)
  {
    resolved := acts;
    var j := 0;
    while j < |resolved|
      invariant 0 <= j <= |acts| == |resolved|
      invariant j <= FirstMiss(acts, search)
      invariant resolved == ResolvePrefix(acts, search, j)
    {
      var pa := resolved[j];
      if pa.kind == AtGroup {
        var g := search(pa.field);
        resolved := resolved[j := pa.(group := g)];
        if g.None? {
          assert resolved == ResolvePrefix(acts, search, j + 1);
          return false, resolved;
        }
      }
      j := j + 1;
    }
    ok := true;
  }

  /** What one slot of the `validate` loop does: carry on with the rewritten slot, or stop with a result. */
  datatype SlotStep = Continue(inst: Instruction) | Stop(res: Outcome<RoflResult>, inst: Instruction)

  /**
   * The `switch` of `validate` on one slot: APPLY resolves its list when it
   * has one; WRITE resolves its array, which is dereferenced unchecked (a
   * NULL array is `Undefined`); any other type is skipped.
   */
  function ValidateSlot(inst: Instruction, search: nat -> Option<GroupRef>): SlotStep
  {
    match inst.kind
    case ApplyActions =>
      if inst.applyActions.None? then Continue(inst)
      else
        var (ok, acts) := ResolveList(inst.applyActions.value, search);
        var inst' := inst.(applyActions := Some(acts));
        if ok then Continue(inst') else Stop(Defined(Failure), inst')
    case WriteActionsType =>
      if inst.writeActions.None? then Stop(Undefined, inst)
      else
        var (ok, acts) := ResolveList(inst.writeActions.value, search);
        var inst' := inst.(writeActions := Some(acts));
        if ok then Continue(inst') else Stop(Defined(Failure), inst')
    case _ => Continue(inst)
  }

  /** `validate` from slot `i` on: the result and the instruction group it leaves behind. */
  function ValidateFrom(insts: InstructionSlots, i: nat, search: nat -> Option<GroupRef>)
    : (Outcome<RoflResult>, InstructionSlots)
    decreases OF12_IT_GOTO_TABLE - i
  {
    if i >= OF12_IT_GOTO_TABLE then (Defined(Success), insts)
    else
      match ValidateSlot(insts[i], search)
      case Continue(x) => ValidateFrom(insts[i := x], i + 1, search)
      case Stop(res, x) => (res, insts[i := x])
  }

  /**
   * `of12_validate_flow_entry`: walks the slots below GOTO_TABLE, resolving
   * every GROUP action through `of12_group_search` (`search`) and storing
   * what it finds; FAILURE at the first GROUP action without a group.
   */
  method ValidateFlowEntry(entry: FlowEntry, search: nat -> Option<GroupRef>) returns (r: Outcome<RoflResult>)
    modifies entry`instructions
    ensures (r, entry.instructions) == ValidateFrom(old(entry.instructions), 0, search)
  {
    ghost var orig := entry.instructions;
    var insts := entry.instructions;
    var i := 0;
    while i < OF12_IT_GOTO_TABLE
      invariant 0 <= i <= OF12_IT_GOTO_TABLE
      invariant ValidateFrom(insts, i, search) == ValidateFrom(orig, 0, search)
    {
      var inst := insts[i];
      assert insts[i := inst] == insts;
      match inst.kind {
        case ApplyActions =>
          if inst.applyActions.Some? {
            var ok, acts := ResolveGroupActions(inst.applyActions.value, search);
            insts := insts[i := inst.(applyActions := Some(acts))];
            if !ok {
              entry.instructions := insts;
              return Defined(Failure);
            }
          }
        case WriteActionsType =>
          if inst.writeActions.None? {
            entry.instructions := insts;
            return Undefined;
          }
          var ok, acts := ResolveGroupActions(inst.writeActions.value, search);
          insts := insts[i := inst.(writeActions := Some(acts))];
          if !ok {
            entry.instructions := insts;
            return Defined(Failure);
          }
        case _ =>
      }
      i := i + 1;
    }
    entry.instructions := insts;
    r := Defined(Success);
  }

  /** The action set a slot's type makes `validate` examine, if any. */
  function Examined(inst: Instruction): Option<seq<PacketAction>>
  {
    if inst.kind == ApplyActions then inst.applyActions
    else if inst.kind == WriteActionsType then inst.writeActions
    else None
  }

  /** The slot holds a GROUP action that `validate` examines and cannot resolve. */
  predicate SlotHasMiss(inst: Instruction, search: nat -> Option<GroupRef>)
  {
    Examined(inst).Some? && exists k :: 0 <= k < |Examined(inst).value| && Unresolved(Examined(inst).value[k], search)
  }

  /** Every GROUP action the slot's examined set holds points at the group `search` finds. */
  predicate SlotResolved(inst: Instruction, search: nat -> Option<GroupRef>)
  {
    Examined(inst).Some? ==>
      forall k :: 0 <= k < |Examined(inst).value| && Examined(inst).value[k].kind == AtGroup ==>
        Examined(inst).value[k].group.Some? && Examined(inst).value[k].group == search(Examined(inst).value[k].field)
  }

  /** No examined WRITE slot from `i` on has a NULL array. */
  predicate WriteArraysPresent(insts: InstructionSlots, i: nat)
  {
    forall j :: i <= j < OF12_IT_GOTO_TABLE && insts[j].kind == WriteActionsType ==> insts[j].writeActions.Some?
  }

  lemma SlotStepFacts(inst: Instruction, search: nat -> Option<GroupRef>)
    ensures ValidateSlot(inst, search).inst.kind == inst.kind
    ensures ValidateSlot(inst, search).Stop? && ValidateSlot(inst, search).res == Defined(Failure)
            <==> SlotHasMiss(inst, search)
    ensures ValidateSlot(inst, search).Stop? && ValidateSlot(inst, search).res != Defined(Failure)
            <==> inst.kind == WriteActionsType && inst.writeActions.None?
    ensures ValidateSlot(inst, search).Continue? ==> SlotResolved(ValidateSlot(inst, search).inst, search)
  {
    if Examined(inst).Some? {
      var acts := Examined(inst).value;
      var k := FirstMiss(acts, search);
      if k == |acts| {
        var r := ResolvePrefix(acts, search, |acts|);
        assert forall j :: 0 <= j < |acts| ==> r[j] == Resolve(acts[j], search);
      }
    }
  }

  /**
   * `validate` fails exactly when an examined slot below GOTO_TABLE holds a
   * GROUP action that `of12_group_search` does not find (provided no WRITE
   * slot has a NULL array), and otherwise succeeds.
   */
  lemma {:induction false} ValidateFailsIffMiss(insts: InstructionSlots, i: nat, search: nat -> Option<GroupRef>)
    requires i <= OF12_IT_GOTO_TABLE
    requires WriteArraysPresent(insts, i)
    ensures ValidateFrom(insts, i, search).0.Defined?
    ensures ValidateFrom(insts, i, search).0 == Defined(Failure)
            <==> exists j :: i <= j < OF12_IT_GOTO_TABLE && SlotHasMiss(insts[j], search)
    decreases OF12_IT_GOTO_TABLE - i
  {
    if i < OF12_IT_GOTO_TABLE {
      SlotStepFacts(insts[i], search);
      match ValidateSlot(insts[i], search)
      case Continue(x) =>
        var next := insts[i := x];
        assert forall j :: i < j < OF12_IT_GOTO_TABLE ==> next[j] == insts[j];
        ValidateFailsIffMiss(next, i + 1, search);
      case Stop(res, x) =>
    }
  }

  /**
   * A successful `validate` leaves every examined GROUP action below
   * GOTO_TABLE pointing at the group `of12_group_search` finds, keeps every
   * slot's type, and does not touch the slots it does not examine.
   */
  lemma {:induction false} ValidateSuccessResolvesAll(insts: InstructionSlots, i: nat, search: nat -> Option<GroupRef>)
    requires i <= OF12_IT_GOTO_TABLE
    ensures var out := ValidateFrom(insts, i, search).1;
      && (forall j :: 0 <= j < OF12_IT_MAX ==> out[j].kind == insts[j].kind)
      && (forall j :: 0 <= j < OF12_IT_MAX && (j < i || j >= OF12_IT_GOTO_TABLE) ==> out[j] == insts[j])
    ensures ValidateFrom(insts, i, search).0 == Defined(Success) ==>
      forall j :: i <= j < OF12_IT_GOTO_TABLE ==> SlotResolved(ValidateFrom(insts, i, search).1[j], search)
    decreases OF12_IT_GOTO_TABLE - i
  {
    if i < OF12_IT_GOTO_TABLE {
      SlotStepFacts(insts[i], search);
      match ValidateSlot(insts[i], search)
      case Continue(x) =>
        var next := insts[i := x];
        ValidateSuccessResolvesAll(next, i + 1, search);
      case Stop(res, x) =>
    }
  }
}
