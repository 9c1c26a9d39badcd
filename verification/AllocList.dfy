/** The tracked list itself: the nodes of `alloc_head`, relinked in place by `src/neoc_memory.c`. */
module AllocList {
  import opened Prelude
  import opened AllocTracker

  class Node {
    const ptr: Addr
    const size: nat
    var next: Node?

    constructor (ptr: Addr, size: nat, next: Node?)
      ensures this.ptr == ptr && this.size == size && this.next == next
    {
      this.ptr := ptr;
      this.size := size;
      this.next := next;
    }
  }

  ghost function EntriesOf(ns: seq<Node>): (es: seq<Entry>)
    ensures |es| == |ns| && forall i :: 0 <= i < |ns| ==> es[i] == Entry(ns[i].ptr, ns[i].size)
  {
    seq(|ns|, i requires 0 <= i < |ns| => Entry(ns[i].ptr, ns[i].size))
  }

  /** The index at which the walk stops: the first entry for `p`, or the end of the list. */
  function FirstAt(list: seq<Entry>, p: Addr): (i: nat)
    ensures i <= |list|
    ensures forall j :: 0 <= j < i ==> list[j].ptr != p
    ensures i < |list| ==> list[i].ptr == p
  {
    if list == [] || list[0].ptr == p then 0 else 1 + FirstAt(list[1..], p)
  }

  /** The list without the first entry for `p`. */
  function Untracked(list: seq<Entry>, p: Addr): seq<Entry> {
    var i := FirstAt(list, p);
    if i < |list| then Without(list, i) else list
  }

  class TrackedList {
    var head: Node?
    ghost var nodes: seq<Node>

    ghost predicate Valid()
      reads this, nodes
    {
      && head == NodeAt(0)
      && (forall i {:trigger nodes[i].next} :: 0 <= i < |nodes| ==> nodes[i].next == NodeAt(i + 1))
      && (forall i, j :: 0 <= i < j < |nodes| ==> nodes[i] != nodes[j])
    }

    ghost function NodeAt(i: nat): Node?
      reads this
    {
      if i < |nodes| then nodes[i] else null
    }

    /** The list as the sequence of its entries, head first. */
    ghost function Contents(): seq<Entry>
      reads this
    {
      EntriesOf(nodes)
    }

    constructor ()
      ensures Valid() && Contents() == [] && nodes == []
    {
      head := null;
      nodes := [];
    }

    /** `track_allocation`: pushes an entry at the head, unless the entry itself cannot be allocated. */
    method Track(ptr: Addr, size: nat, entryMade: bool)
      requires Valid()
      modifies this
      ensures Valid()
      ensures Contents() == (if entryMade then [Entry(ptr, size)] else []) + old(Contents())
    {
      if !entryMade {
        assert Contents() == [] + old(Contents());
        return;
      }
      var entry := new Node(ptr, size, head);
      head := entry;
      nodes := [entry] + nodes;
    }

    /** Bypasses node `k`, whose predecessor is `prev` (null at the head). */
    method Relink(prev: Node?, cur: Node, ghost k: nat)
      requires Valid() && k < |nodes| && cur == nodes[k]
      requires prev == if k == 0 then null else nodes[k - 1]
      modifies this, nodes
      ensures Valid() && nodes == Without(old(nodes), k)
    {
      if prev != null {
        prev.next := cur.next;
      } else {
        head := cur.next;
      }
      ghost var before := nodes;
      nodes := Without(nodes, k);
      forall i | 0 <= i < |nodes|
        ensures nodes[i].next == NodeAt(i + 1)
      {
        assert nodes[i] == before[if i < k then i else i + 1];
      }
    }

    /** `untrack_allocation`: walks with a trailing pointer and unlinks the first entry for `ptr`. */
    method Untrack(ptr: Addr) returns (found: bool, size: nat)
      requires Valid()
      modifies this, nodes
      ensures Valid()
      ensures var i := FirstAt(old(Contents()), ptr);
              && found == (i < |old(Contents())|)
              && Contents() == Untracked(old(Contents()), ptr)
              && (found ==> size == old(Contents())[i].size)
    {
      var prev: Node? := null;
      var cur := head;
      ghost var k := 0;
      ghost var entries := Contents();
      while cur != null
        invariant k <= |nodes| && cur == NodeAt(k)
        invariant prev == if k == 0 then null else nodes[k - 1]
        invariant forall j :: 0 <= j < k ==> entries[j].ptr != ptr
        decreases |nodes| - k
      {
        if cur.ptr == ptr {
          assert entries[k].ptr == ptr;
          size := cur.size;
          WithoutEntry(nodes, k);
          Relink(prev, cur, k);
          return true, size;
        }
        prev := cur;
        cur := cur.next;
        k := k + 1;
      }
      return false, 0;
    }
  }

  lemma WithoutEntry(ns: seq<Node>, k: nat)
    requires k < |ns|
    ensures EntriesOf(Without(ns, k)) == Without(EntriesOf(ns), k)
  {
  }

  // ----- The critical section of the state machine --------------------------------------------

  predicate Walking(pc: Pc) { pc.Walk? || pc.Unlink? || pc.UnlockAfterWalk? }

  /** How far thread `t` has come with the list that it found when it took the lock. */
  ghost predicate WalkedFrom(s: State, t: nat, list: seq<Entry>)
    requires t < |s.threads|
  {
    var th, first := s.threads[t], FirstAt(list, s.threads[t].ptr);
    && (th.pc.Walk? ==> s.list == list && th.pc.at <= first)
    && (th.pc.Unlink? ==> s.list == list && th.pc.at == first < |list|)
    && (th.pc.UnlockAfterWalk? ==>
          && s.list == Untracked(list, th.ptr)
          && th.hadEntry == (first < |list|)
          && (th.hadEntry ==> th.oldSize == list[first].size))
  }

  /** A turn of the walk: past another entry, on to unlink its own, or to the end. */
  lemma WalkGoesOn(s: State, t: nat, a: Action, list: seq<Entry>)
    requires t < |s.threads| && s.threads[t].pc.Walk? && !s.threads[t].hadEntry && WalkedFrom(s, t, list)
    ensures var s' := Search(s, t, a);
            t < |s'.threads| && WalkedFrom(s', t, list) && s'.threads[t].ptr == s.threads[t].ptr
  {
  }

  lemma UnlinkGoesOn(s: State, t: nat, a: Action, list: seq<Entry>)
    requires t < |s.threads| && s.threads[t].pc.Unlink? && WalkedFrom(s, t, list)
    ensures var s' := Search(s, t, a);
            t < |s'.threads| && WalkedFrom(s', t, list) && s'.threads[t].ptr == s.threads[t].ptr
  {
  }

  /** The thread's own step takes it further, unless it releases the lock. */
  lemma OwnStep(s: State, t: nat, a: Action, list: seq<Entry>)
    requires Safe(s) && Allowed(s, t, a) && Walking(s.threads[t].pc) && WalkedFrom(s, t, list)
    requires !s.threads[t].pc.UnlockAfterWalk?
    ensures var s' := Step(s, t, a);
            t < |s'.threads| && WalkedFrom(s', t, list) && s'.threads[t].ptr == s.threads[t].ptr
  {
    assert LocalsFit(s.threads[t]);
    if s.threads[t].pc.Walk? {
      WalkGoesOn(s, t, a, list);
    } else {
      UnlinkGoesOn(s, t, a, list);
    }
  }

  /** Meanwhile no other thread changes the list. */
  lemma OthersWait(s: State, t: nat, u: nat, a: Action, list: seq<Entry>)
    requires Safe(s) && Allowed(s, u, a) && u != t && t < |s.threads| && Walking(s.threads[t].pc) && WalkedFrom(s, t, list)
    ensures var s' := Step(s, u, a);
            t < |s'.threads| && WalkedFrom(s', t, list) && s'.threads[t].ptr == s.threads[t].ptr
  {
    StepBehaves(s, u, a);
    assert s.lock == Some(t);
    assert Step(s, u, a).threads[t] == s.threads[t];
  }

  /** Releasing the lock ends the walk. */
  lemma UnlockEndsWalk(s: State, t: nat, a: Action)
    requires t < |s.threads| && s.threads[t].pc.UnlockAfterWalk?
    ensures t < |Step(s, t, a).threads| && !Walking(Step(s, t, a).threads[t].pc)
  {
  }

  lemma SectionStep(s: State, m: Move, t: nat, list: seq<Entry>)
    requires Safe(s) && Allowed(s, m.thread, m.action) && t < |s.threads| && Walking(s.threads[t].pc)
    requires WalkedFrom(s, t, list)
    ensures var s' := Step(s, m.thread, m.action);
            t < |s'.threads| &&
            (Walking(s'.threads[t].pc) ==> WalkedFrom(s', t, list) && s'.threads[t].ptr == s.threads[t].ptr)
  {
    if m.thread != t {
      OthersWait(s, t, m.thread, m.action, list);
    } else if s.threads[t].pc.UnlockAfterWalk? {
      UnlockEndsWalk(s, t, m.action);
    } else {
      OwnStep(s, t, m.action, list);
    }
  }

  lemma OneMove(states: seq<State>, moves: seq<Move>, k: nat, t: nat, list: seq<Entry>)
    requires Run(states, moves) && k < |moves| && t < |states[k].threads| && Walking(states[k].threads[t].pc)
    requires WalkedFrom(states[k], t, list)
    ensures t < |states[k + 1].threads|
    ensures Walking(states[k + 1].threads[t].pc) ==>
              WalkedFrom(states[k + 1], t, list) && states[k + 1].threads[t].ptr == states[k].threads[t].ptr
  {
    RunKeepsInvariants(states, moves, k);
    SectionStep(states[k], moves[k], t, list);
  }

  /** From state `i`, where thread `t` has taken the lock, to state `j` it walks. */
  ghost predicate InSection(states: seq<State>, i: nat, j: nat, t: nat)
    requires i <= j < |states|
  {
    && t < |states[i].threads| && states[i].threads[t].pc == Walk(0)
    && forall k :: i <= k <= j ==> t < |states[k].threads| && Walking(states[k].threads[t].pc)
  }

  /**
   * In every interleaving, from the moment a thread takes the lock to the moment it is about to release it, its walk
   * has turned the list into `Untracked(list, ptr)`, which is what `Untrack` does to the linked nodes.
   */
  lemma {:induction false} CriticalSectionUntracks(states: seq<State>, moves: seq<Move>, i: nat, j: nat, t: nat)
    requires Run(states, moves) && i <= j < |states| && InSection(states, i, j, t)
    ensures WalkedFrom(states[j], t, states[i].list) && states[j].threads[t].ptr == states[i].threads[t].ptr
    decreases j
  {
    if i < j {
      CriticalSectionUntracks(states, moves, i, j - 1, t);
      OneMove(states, moves, j - 1, t, states[i].list);
    }
  }
}
