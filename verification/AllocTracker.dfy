/**
 * The allocation tracker of `src/neoc_memory.c` as a state machine.
 *
 * Every thread runs `neoc_malloc`, `neoc_calloc`, `neoc_realloc` and `neoc_free` one atomic
 * step at a time, over one shared list, one spin lock and six counters.  A program counter
 * names the next step of the C text.  The default allocator is used throughout.
 */
module AllocTracker {
  import opened Prelude

  type Addr = nat

  datatype Entry = Entry(ptr: Addr, size: nat)

  datatype Stats = Stats(totalAllocated: int, totalFreed: int, current: int, peak: int, allocs: int, frees: int)

  /** What a thread in flight is doing; `Restoring` is the failure path of `neoc_realloc`. */
  datatype Call = Allocating | Freeing | Resizing | Restoring

  datatype Pc =
    | Idle
    | SystemAlloc
    | CountAlloc
    | NewEntry
    | LockForPush
    | Push
    | UnlockAfterPush
    | AddAllocated
    | AddCurrent
    | LoadCurrent
    | LoadPeak
    | StorePeak
    | LockForWalk
    | Walk(at: nat)
    | Unlink(at: nat)
    | UnlockAfterWalk
    | SystemFree
    | SystemRealloc
    | CountFree
    | AddFreed
    | SubCurrent

  /** The local variables of a call; `entered` says that the current block got a list entry. */
  datatype Thread = Thread(pc: Pc, call: Call, ptr: Addr, size: nat, oldSize: nat,
                           hadEntry: bool, entered: bool, seenCurrent: int, seenPeak: int)

  /**
   * `live` are the blocks the system has handed out, `held` those a caller holds and may release.
   * The last three fields are history that no step reads: bytes charged to `current` with no entry
   * left to discharge them, successful resizes of unlisted blocks, and blocks the callers took
   * directly from the system (as `nef_file.c` does with the writer's output before `neoc_free`).
   */
  datatype State = State(list: seq<Entry>, lock: Option<nat>, stats: Stats,
                         live: set<Addr>, held: set<Addr>, threads: seq<Thread>,
                         lost: nat, drift: nat, foreign: nat)

  /** What the environment supplies to a step: a caller's request, or the system's answer. */
  datatype Action =
    | CallMalloc(bytes: nat)
    | CallCalloc(count: nat, bytes: nat)
    | CallRealloc(block: Option<Addr>, bytes: nat)
    | CallFree(block: Option<Addr>)
    | TakeForeign(addr: Addr)
    | Granted(addr: Addr)
    | EntryMade
    | Refused
    | Tick

  /** Callers release only blocks they hold; the system hands out only addresses not in use. */
  predicate Allowed(s: State, t: nat, a: Action) {
    t < |s.threads| &&
    var th := s.threads[t];
    match th.pc
    case Idle => (
      match a
      case CallMalloc(_) => true
      case CallCalloc(_, _) => true
      case CallRealloc(p, _) => p.Some? ==> p.value in s.held
      case CallFree(p) => p.Some? ==> p.value in s.held
      case TakeForeign(addr) => addr !in s.live
      case _ => false)
    case SystemAlloc => a.Refused? || (a.Granted? && a.addr !in s.live)
    case SystemRealloc => a.Refused? || (a.Granted? && (a.addr == th.ptr || a.addr !in s.live))
    case NewEntry => a.Refused? || a.EntryMade?
    case _ => a.Tick?
  }

  function Without<T>(xs: seq<T>, i: nat): seq<T>
    requires i < |xs|
  {
    xs[..i] + xs[i + 1..]
  }

  function Put(s: State, t: nat, th: Thread): State
    requires t < |s.threads|
  {
    s.(threads := s.threads[t := th])
  }

  /** The call returns; a block it still owns goes (back) to the caller. */
  function Return(s: State, t: nat, th: Thread, given: set<Addr>): State
    requires t < |s.threads|
  {
    Put(s, t, th.(pc := Idle)).(held := s.held + given)
  }

  function StartMalloc(s: State, t: nat, bytes: nat): State
    requires t < |s.threads|
  {
    if bytes == 0 then s
    else Put(s, t, s.threads[t].(pc := SystemAlloc, call := Allocating, size := bytes, hadEntry := false,
                                 oldSize := 0, entered := false))
  }

  function StartRelease(s: State, t: nat, p: Addr, call: Call, bytes: nat): State
    requires t < |s.threads|
  {
    Put(s, t, s.threads[t].(pc := LockForWalk, call := call, ptr := p, size := bytes, hadEntry := false,
                            oldSize := 0, entered := false)).(held := s.held - {p})
  }

  function Begin(s: State, t: nat, a: Action): State
    requires t < |s.threads|
  {
    match a
    case CallMalloc(n) => StartMalloc(s, t, n)
    case CallCalloc(count, n) => StartMalloc(s, t, count * n)
    case CallRealloc(p, n) =>
      if p.None? then StartMalloc(s, t, n)
      else StartRelease(s, t, p.value, if n == 0 then Freeing else Resizing, n)
    case CallFree(p) => if p.None? then s else StartRelease(s, t, p.value, Freeing, 0)
    case TakeForeign(addr) =>
      s.(live := s.live + {addr}, held := s.held + {addr}, foreign := s.foreign + 1)
    case _ => s
  }

  /** The stretches of program points that a call passes through. */
  datatype Phase = Resting | Entering | Charging | Searching | Returning | Discharging

  function PhaseOf(pc: Pc): Phase {
    match pc
    case Idle => Resting
    case SystemAlloc => Entering
    case CountAlloc => Entering
    case NewEntry => Entering
    case LockForPush => Entering
    case Push => Entering
    case UnlockAfterPush => Entering
    case AddAllocated => Charging
    case AddCurrent => Charging
    case LoadCurrent => Charging
    case LoadPeak => Charging
    case StorePeak => Charging
    case LockForWalk => Searching
    case Walk(_) => Searching
    case Unlink(_) => Searching
    case UnlockAfterWalk => Searching
    case SystemFree => Returning
    case SystemRealloc => Returning
    case _ => Discharging
  }

  /** Obtaining a block and tracking it: the system call, `track_allocation`, the push under the lock. */
  function Enter(s: State, t: nat, a: Action): State
    requires t < |s.threads|
  {
    var th := s.threads[t];
    match th.pc
    case SystemAlloc =>
      if a.Granted?
      then Put(s, t, th.(pc := CountAlloc, ptr := a.addr)).(live := s.live + {a.addr})
      else Return(s, t, th, {})
    case CountAlloc =>
      Put(s, t, th.(pc := NewEntry)).(
        stats := s.stats.(allocs := s.stats.allocs + 1),
        drift := s.drift + (if th.call.Resizing? && !(th.hadEntry && th.oldSize > 0) then 1 else 0))
    case NewEntry =>
      if a.EntryMade? then Put(s, t, th.(pc := LockForPush))
      else if th.call.Restoring? then Return(s, t, th, {th.ptr}).(lost := s.lost + th.size)
      else Put(s, t, th.(pc := AddAllocated, entered := false))
    case LockForPush =>
      if s.lock.None? then Put(s, t, th.(pc := Push)).(lock := Some(t)) else s
    case Push =>
      Put(s, t, th.(pc := UnlockAfterPush, entered := true)).(list := [Entry(th.ptr, th.size)] + s.list)
    case UnlockAfterPush =>
      (if th.call.Restoring? then Return(s, t, th, {th.ptr}) else Put(s, t, th.(pc := AddAllocated)))
      .(lock := None)
    case _ => s
  }

  /** Adding a new block's size to the counters. */
  function Charge(s: State, t: nat, a: Action): State
    requires t < |s.threads|
  {
    var th := s.threads[t];
    match th.pc
    case AddAllocated =>
      Put(s, t, th.(pc := AddCurrent)).(stats := s.stats.(totalAllocated := s.stats.totalAllocated + th.size))
    case AddCurrent =>
      var s' := s.(stats := s.stats.(current := s.stats.current + th.size),
                   lost := s.lost + (if th.entered then 0 else th.size));
      if th.call.Resizing? then
        if th.hadEntry && th.oldSize > 0 then Put(s', t, th.(pc := CountFree))
        else Return(s', t, th, {th.ptr})
      else Put(s', t, th.(pc := LoadCurrent))
    case LoadCurrent => Put(s, t, th.(pc := LoadPeak, seenCurrent := s.stats.current))
    case LoadPeak => Put(s, t, th.(pc := StorePeak, seenPeak := s.stats.peak))
    case StorePeak =>
      Return(if th.seenCurrent > th.seenPeak then s.(stats := s.stats.(peak := th.seenCurrent)) else s,
             t, th, {th.ptr})
    case _ => s
  }

  /** `untrack_allocation`: the walk and the unlinking under the lock. */
  function Search(s: State, t: nat, a: Action): State
    requires t < |s.threads|
  {
    var th := s.threads[t];
    match th.pc
    case LockForWalk =>
      if s.lock.None? then Put(s, t, th.(pc := Walk(0))).(lock := Some(t)) else s
    case Walk(i) =>
      if i >= |s.list| then Put(s, t, th.(pc := UnlockAfterWalk))
      else if s.list[i].ptr == th.ptr then Put(s, t, th.(pc := Unlink(i)))
      else Put(s, t, th.(pc := Walk(i + 1)))
    case Unlink(i) =>
      if i >= |s.list| then s
      else Put(s, t, th.(pc := UnlockAfterWalk, hadEntry := true, oldSize := s.list[i].size))
           .(list := Without(s.list, i))
    case UnlockAfterWalk =>
      Put(s, t, th.(pc := if th.call.Freeing? then SystemFree else SystemRealloc)).(lock := None)
    case _ => s
  }

  /** Handing the old block back to the system. */
  function HandBack(s: State, t: nat, a: Action): State
    requires t < |s.threads|
  {
    var th := s.threads[t];
    match th.pc
    case SystemFree => Put(s, t, th.(pc := CountFree)).(live := s.live - {th.ptr})
    case SystemRealloc =>
      if a.Granted?
      then Put(s, t, th.(pc := CountAlloc, ptr := a.addr)).(live := s.live - {th.ptr} + {a.addr})
      else if th.hadEntry then Put(s, t, th.(pc := NewEntry, call := Restoring, size := th.oldSize))
      else Return(s, t, th, {th.ptr})
    case _ => s
  }

  /** Taking the old block's size off the counters. */
  function Discharge(s: State, t: nat, a: Action): State
    requires t < |s.threads|
  {
    var th := s.threads[t];
    match th.pc
    case CountFree =>
      var s' := s.(stats := s.stats.(frees := s.stats.frees + 1));
      if th.hadEntry then Put(s', t, th.(pc := AddFreed)) else Return(s', t, th, {})
    case AddFreed =>
      Put(s, t, th.(pc := SubCurrent)).(stats := s.stats.(totalFreed := s.stats.totalFreed + th.oldSize))
    case SubCurrent =>
      Return(s.(stats := s.stats.(current := s.stats.current - th.oldSize)), t, th,
             if th.call.Resizing? then {th.ptr} else {})
    case _ => s
  }

  /** One atomic step of thread `t`. */
  function Step(s: State, t: nat, a: Action): State
    requires t < |s.threads|
  {
    match PhaseOf(s.threads[t].pc)
    case Resting => Begin(s, t, a)
    case Entering => Enter(s, t, a)
    case Charging => Charge(s, t, a)
    case Searching => Search(s, t, a)
    case Returning => HandBack(s, t, a)
    case Discharging => Discharge(s, t, a)
  }

  // ----- Who owns which block ---------------------------------------------------------------

  predicate Critical(pc: Pc) {
    pc.Push? || pc.UnlockAfterPush? || pc.Walk? || pc.Unlink? || pc.UnlockAfterWalk?
  }

  /** The block that a call in flight has to itself: no caller and no other call has it. */
  function Owned(th: Thread): set<Addr> {
    if th.pc.Idle? || th.pc.SystemAlloc? then {}
    else if th.call.Freeing? && (th.pc.CountFree? || th.pc.AddFreed? || th.pc.SubCurrent?) then {}
    else {th.ptr}
  }

  /** Program points at which the owned block has no entry: not yet pushed, or already unlinked. */
  predicate Unlisted(pc: Pc) {
    pc.CountAlloc? || pc.NewEntry? || pc.LockForPush? || pc.Push?
    || pc.UnlockAfterWalk? || pc.SystemFree? || pc.SystemRealloc?
  }

  /** Program points that each kind of call can be at. */
  predicate Reaches(call: Call, pc: Pc) {
    match pc
    case Idle => true
    case SystemAlloc => call.Allocating?
    case CountAlloc => call.Allocating? || call.Resizing?
    case NewEntry => !call.Freeing?
    case LockForPush => !call.Freeing?
    case Push => !call.Freeing?
    case UnlockAfterPush => !call.Freeing?
    case AddAllocated => call.Allocating? || call.Resizing?
    case AddCurrent => call.Allocating? || call.Resizing?
    case LoadCurrent => call.Allocating?
    case LoadPeak => call.Allocating?
    case StorePeak => call.Allocating?
    case SystemFree => call.Freeing?
    case SystemRealloc => call.Resizing?
    case CountFree => call.Freeing? || call.Resizing?
    case AddFreed => call.Freeing? || call.Resizing?
    case SubCurrent => call.Freeing? || call.Resizing?
    case _ => call.Freeing? || call.Resizing?
  }

  /** What a thread's local variables mean at its program point. */
  ghost predicate LocalsFit(th: Thread) {
    && Reaches(th.call, th.pc)
    && (!th.pc.Idle? && !th.call.Freeing? ==> th.size > 0)
    && (th.hadEntry ==> th.oldSize > 0)
    && (th.call.Allocating? ==> !th.hadEntry)
    && (th.call.Restoring? && !th.pc.Idle? ==> th.hadEntry && th.size == th.oldSize)
    && (th.pc.LockForWalk? || th.pc.Walk? || th.pc.Unlink? ==> !th.hadEntry)
    && (th.call.Resizing? && (th.pc.CountFree? || th.pc.AddFreed? || th.pc.SubCurrent?) ==> th.hadEntry)
    && (th.pc.AddFreed? || th.pc.SubCurrent? ==> th.hadEntry)
    && (th.pc.UnlockAfterPush? ==> th.entered)
  }

  /** What a thread knows about the shared list at its program point. */
  ghost predicate ViewFits(th: Thread, list: seq<Entry>) {
    && (th.pc.Walk? ==> th.pc.at <= |list| && forall j :: 0 <= j < th.pc.at ==> list[j].ptr != th.ptr)
    && (th.pc.Unlink? ==> th.pc.at < |list| && list[th.pc.at].ptr == th.ptr)
    && (Unlisted(th.pc) ==> forall j :: 0 <= j < |list| ==> list[j].ptr != th.ptr)
    && (th.entered && (th.pc.UnlockAfterPush? || th.pc.AddAllocated? || th.pc.AddCurrent?)
        ==> Entry(th.ptr, th.size) in list)
  }

  ghost predicate ListSound(list: seq<Entry>, live: set<Addr>) {
    && (forall i, j :: 0 <= i < j < |list| ==> list[i].ptr != list[j].ptr)
    && (forall i :: 0 <= i < |list| ==> list[i].ptr in live && list[i].size > 0)
  }

  /** Mutual exclusion: the lock names exactly the thread inside a critical section. */
  ghost predicate LockSound(s: State) {
    forall t :: 0 <= t < |s.threads| ==> (s.lock == Some(t) <==> Critical(s.threads[t].pc))
  }

  ghost predicate OwnershipSound(s: State) {
    && s.held <= s.live
    && (forall t :: 0 <= t < |s.threads| ==> Owned(s.threads[t]) <= s.live && Owned(s.threads[t]) !! s.held)
    && (forall t, u :: 0 <= t < u < |s.threads| ==> Owned(s.threads[t]) !! Owned(s.threads[u]))
  }

  ghost predicate Safe(s: State) {
    && ListSound(s.list, s.live)
    && LockSound(s)
    && OwnershipSound(s)
    && (forall t :: 0 <= t < |s.threads| ==> LocalsFit(s.threads[t]) && ViewFits(s.threads[t], s.list))
  }

  ghost predicate Init(s: State) {
    && s.list == [] && s.lock == None && s.stats == Stats(0, 0, 0, 0, 0, 0)
    && s.live == {} && s.held == {}
    && s.lost == 0 && s.drift == 0 && s.foreign == 0
    && (forall t :: 0 <= t < |s.threads| ==> s.threads[t].pc.Idle? && !s.threads[t].hadEntry)
  }

  // ----- One step, seen from outside the stepping thread -------------------------------------

  ghost predicate OthersKept(s: State, s': State, t: nat)
    requires t < |s.threads|
  {
    |s'.threads| == |s.threads| && forall u :: 0 <= u < |s.threads| && u != t ==> s'.threads[u] == s.threads[u]
  }

  /** A step moves blocks only between the caller's hands, its own hands and the system. */
  ghost predicate MovesOwnBlocks(s: State, s': State, t: nat)
    requires t < |s.threads| == |s'.threads|
  {
    var o, o' := Owned(s.threads[t]), Owned(s'.threads[t]);
    && s'.held + o' <= s'.live && s'.held !! o'
    && s.live - o <= s'.live
    && s'.held + o' <= s.held + o + (s'.live - s.live)
  }

  /** A step touches the list only under the lock, and only at its own block's entry. */
  ghost predicate EditsOwnEntry(s: State, s': State, t: nat)
    requires t < |s.threads|
  {
    var p := s.threads[t].ptr;
    && (s'.list != s.list ==> s.lock == Some(t) && p in Owned(s.threads[t]))
    && (forall i :: 0 <= i < |s'.list| ==> s'.list[i] in s.list || s'.list[i].ptr == p)
    && (forall i :: 0 <= i < |s.list| && s.list[i].ptr != p ==> s.list[i] in s'.list)
  }

  ghost predicate TakesFreeLock(s: State, s': State, t: nat)
    requires t < |s.threads| == |s'.threads|
  {
    && (s'.lock == Some(t) <==> Critical(s'.threads[t].pc))
    && (s'.lock == s.lock || ((s.lock == None || s.lock == Some(t)) && (s'.lock == None || s'.lock == Some(t))))
  }

  ghost predicate KeepsListSound(s: State, s': State, t: nat)
    requires t < |s.threads| == |s'.threads|
  {
    EditsOwnEntry(s, s', t) && ListSound(s'.list, s'.live) && ViewFits(s'.threads[t], s'.list)
  }

  ghost predicate KeepsOwnership(s: State, s': State, t: nat)
    requires t < |s.threads|
  {
    OthersKept(s, s', t) && MovesOwnBlocks(s, s', t) && TakesFreeLock(s, s', t) && LocalsFit(s'.threads[t])
  }

  /** The part of `Safe` that concerns the stepping thread alone. */
  ghost predicate Ready(s: State, t: nat)
    requires t < |s.threads|
  {
    && ListSound(s.list, s.live)
    && s.held <= s.live && Owned(s.threads[t]) <= s.live && Owned(s.threads[t]) !! s.held
    && (s.lock == Some(t) <==> Critical(s.threads[t].pc))
    && LocalsFit(s.threads[t]) && ViewFits(s.threads[t], s.list)
  }

  lemma QuietKeepsList(s: State, s': State, t: nat)
    requires t < |s.threads| && ListSound(s.list, s.live)
    requires s'.list == s.list && s.live <= s'.live
    ensures EditsOwnEntry(s, s', t) && ListSound(s'.list, s'.live)
  {
  }

  lemma PushKeepsList(s: State, t: nat, a: Action)
    requires Allowed(s, t, a) && Ready(s, t) && s.threads[t].pc.Push?
    ensures KeepsListSound(s, Enter(s, t, a), t)
  {
    var s' := Enter(s, t, a);
    assert s'.list[1..] == s.list;
    assert forall i :: 0 <= i < |s.list| ==> s.list[i] == s'.list[i + 1];
  }

  lemma UnlinkKeepsSound(list: seq<Entry>, live: set<Addr>, k: nat)
    requires ListSound(list, live) && k < |list|
    ensures var l := Without(list, k);
            && ListSound(l, live)
            && (forall i :: 0 <= i < |l| ==> l[i] in list && l[i].ptr != list[k].ptr)
            && (forall i :: 0 <= i < |list| && list[i].ptr != list[k].ptr ==> list[i] in l)
  {
    var l := Without(list, k);
    assert forall i :: 0 <= i < |l| ==> l[i] == list[if i < k then i else i + 1];
    forall i | 0 <= i < |list| && list[i].ptr != list[k].ptr
      ensures list[i] in l
    {
      assert list[i] == l[if i < k then i else i - 1];
    }
  }

  lemma UnlinkKeepsList(s: State, t: nat, a: Action)
    requires Allowed(s, t, a) && Ready(s, t) && s.threads[t].pc.Unlink?
    ensures KeepsListSound(s, Search(s, t, a), t)
  {
    UnlinkKeepsSound(s.list, s.live, s.threads[t].pc.at);
  }

  lemma BeginKeepsOwnership(s: State, t: nat, a: Action)
    requires Allowed(s, t, a) && Ready(s, t) && PhaseOf(s.threads[t].pc) == Resting
    ensures KeepsOwnership(s, Begin(s, t, a), t)
  {
  }

  lemma BeginKeepsList(s: State, t: nat, a: Action)
    requires Allowed(s, t, a) && Ready(s, t) && PhaseOf(s.threads[t].pc) == Resting
    ensures |Begin(s, t, a).threads| == |s.threads| && KeepsListSound(s, Begin(s, t, a), t)
  {
    QuietKeepsList(s, Begin(s, t, a), t);
  }

  lemma GrantKeepsOwnership(s: State, t: nat, a: Action)
    requires Allowed(s, t, a) && Ready(s, t) && s.threads[t].pc.SystemAlloc?
    ensures KeepsOwnership(s, Enter(s, t, a), t)
  {
  }

  lemma EnterKeepsOwnership(s: State, t: nat, a: Action)
    requires Allowed(s, t, a) && Ready(s, t) && PhaseOf(s.threads[t].pc) == Entering
    ensures KeepsOwnership(s, Enter(s, t, a), t)
  {
    if s.threads[t].pc.SystemAlloc? {
      GrantKeepsOwnership(s, t, a);
    } else {
      assert Enter(s, t, a).live == s.live;
    }
  }

  lemma EnterKeepsList(s: State, t: nat, a: Action)
    requires Allowed(s, t, a) && Ready(s, t) && PhaseOf(s.threads[t].pc) == Entering
    ensures |Enter(s, t, a).threads| == |s.threads| && KeepsListSound(s, Enter(s, t, a), t)
  {
    if s.threads[t].pc.Push? {
      PushKeepsList(s, t, a);
    } else {
      QuietKeepsList(s, Enter(s, t, a), t);
    }
  }

  lemma ChargeKeepsOwnership(s: State, t: nat, a: Action)
    requires Allowed(s, t, a) && Ready(s, t) && PhaseOf(s.threads[t].pc) == Charging
    ensures KeepsOwnership(s, Charge(s, t, a), t)
  {
  }

  lemma ChargeKeepsList(s: State, t: nat, a: Action)
    requires Allowed(s, t, a) && Ready(s, t) && PhaseOf(s.threads[t].pc) == Charging
    ensures |Charge(s, t, a).threads| == |s.threads| && KeepsListSound(s, Charge(s, t, a), t)
  {
    QuietKeepsList(s, Charge(s, t, a), t);
  }

  lemma SearchKeepsOwnership(s: State, t: nat, a: Action)
    requires Allowed(s, t, a) && Ready(s, t) && PhaseOf(s.threads[t].pc) == Searching
    ensures KeepsOwnership(s, Search(s, t, a), t)
  {
  }

  lemma SearchKeepsList(s: State, t: nat, a: Action)
    requires Allowed(s, t, a) && Ready(s, t) && PhaseOf(s.threads[t].pc) == Searching
    ensures |Search(s, t, a).threads| == |s.threads| && KeepsListSound(s, Search(s, t, a), t)
  {
    if s.threads[t].pc.Unlink? {
      UnlinkKeepsList(s, t, a);
    } else {
      QuietKeepsList(s, Search(s, t, a), t);
    }
  }

  lemma HandBackKeepsOwnership(s: State, t: nat, a: Action)
    requires Allowed(s, t, a) && Ready(s, t) && PhaseOf(s.threads[t].pc) == Returning
    ensures KeepsOwnership(s, HandBack(s, t, a), t)
  {
  }

  lemma DischargeKeepsOwnership(s: State, t: nat, a: Action)
    requires Allowed(s, t, a) && Ready(s, t) && PhaseOf(s.threads[t].pc) == Discharging
    ensures KeepsOwnership(s, Discharge(s, t, a), t)
  {
  }

  lemma HandBackKeepsList(s: State, t: nat, a: Action)
    requires Allowed(s, t, a) && Ready(s, t) && PhaseOf(s.threads[t].pc) == Returning
    ensures |HandBack(s, t, a).threads| == |s.threads| && KeepsListSound(s, HandBack(s, t, a), t)
  {
  }

  lemma DischargeKeepsList(s: State, t: nat, a: Action)
    requires Allowed(s, t, a) && Ready(s, t) && PhaseOf(s.threads[t].pc) == Discharging
    ensures |Discharge(s, t, a).threads| == |s.threads| && KeepsListSound(s, Discharge(s, t, a), t)
  {
    QuietKeepsList(s, Discharge(s, t, a), t);
  }

  lemma StepBehaves(s: State, t: nat, a: Action)
    requires Safe(s) && Allowed(s, t, a)
    ensures KeepsOwnership(s, Step(s, t, a), t) && KeepsListSound(s, Step(s, t, a), t)
  {
    match PhaseOf(s.threads[t].pc)
    case Resting => BeginKeepsOwnership(s, t, a); BeginKeepsList(s, t, a);
    case Entering => EnterKeepsOwnership(s, t, a); EnterKeepsList(s, t, a);
    case Charging => ChargeKeepsOwnership(s, t, a); ChargeKeepsList(s, t, a);
    case Searching => SearchKeepsOwnership(s, t, a); SearchKeepsList(s, t, a);
    case Returning => HandBackKeepsOwnership(s, t, a); HandBackKeepsList(s, t, a);
    case Discharging => DischargeKeepsOwnership(s, t, a); DischargeKeepsList(s, t, a);
  }

  lemma BehavedKeepsOther(s: State, s': State, t: nat, u: nat)
    requires t < |s.threads| && u < |s.threads| && u != t
    requires Safe(s) && KeepsOwnership(s, s', t) && KeepsListSound(s, s', t)
    ensures LocalsFit(s'.threads[u]) && ViewFits(s'.threads[u], s'.list)
    ensures Owned(s'.threads[u]) <= s'.live && Owned(s'.threads[u]) !! s'.held
    ensures Owned(s'.threads[u]) !! Owned(s'.threads[t])
    ensures s'.lock == Some(u) <==> Critical(s'.threads[u].pc)
  {
    assert s'.threads[u] == s.threads[u];
    assert Owned(s.threads[t]) !! Owned(s.threads[u]);
  }

  lemma StepKeepsSafe(s: State, t: nat, a: Action)
    requires Safe(s) && Allowed(s, t, a)
    ensures Safe(Step(s, t, a))
  {
    var s' := Step(s, t, a);
    StepBehaves(s, t, a);
    forall u | 0 <= u < |s.threads| && u != t
      ensures LocalsFit(s'.threads[u]) && ViewFits(s'.threads[u], s'.list)
      ensures Owned(s'.threads[u]) <= s'.live && Owned(s'.threads[u]) !! s'.held
      ensures Owned(s'.threads[u]) !! Owned(s'.threads[t])
      ensures s'.lock == Some(u) <==> Critical(s'.threads[u].pc)
    {
      BehavedKeepsOther(s, s', t, u);
    }
  }

  // ----- The books ---------------------------------------------------------------------------

  function SizeOf(e: Entry): int { e.size }

  /** The bytes of all tracked blocks. */
  function Bytes(list: seq<Entry>): int { Sum(list, SizeOf) }

  /** How far `current_usage` runs ahead of `total_allocated - total_freed` because of `th`. */
  function Drag(th: Thread): int {
    if th.pc.AddCurrent? then 0 - th.size else if th.pc.SubCurrent? then th.oldSize else 0
  }

  /** The bytes that `th` has listed but not yet charged. */
  function Uncharged(th: Thread): int {
    if th.entered && !th.call.Restoring? && (th.pc.UnlockAfterPush? || th.pc.AddAllocated? || th.pc.AddCurrent?)
    then th.size else 0
  }

  /** The bytes that `th` has unlisted but not yet discharged (or listed again). */
  function Undischarged(th: Thread): int {
    if th.pc.Idle? || !th.hadEntry || (th.call.Restoring? && th.pc.UnlockAfterPush?) then 0 else th.oldSize
  }

  /** How far `allocation_count - free_count` runs ahead of the number of live blocks because of `th`. */
  function Ahead(th: Thread): int {
    if th.call.Allocating? then (if th.pc.CountAlloc? then -1 else 0)
    else if th.call.Freeing? then (if th.pc.CountFree? then 1 else 0)
    else if th.call.Resizing? && th.hadEntry
         && (th.pc.NewEntry? || th.pc.LockForPush? || th.pc.Push? || th.pc.UnlockAfterPush?
             || th.pc.AddAllocated? || th.pc.AddCurrent? || th.pc.CountFree?) then 1
    else 0
  }

  /** The three balances that hold in every reachable state, calls in flight included. */
  ghost predicate Balanced(s: State) {
    && s.stats.current == s.stats.totalAllocated - s.stats.totalFreed + Sum(s.threads, Drag)
    && s.stats.current + Sum(s.threads, Uncharged) == Bytes(s.list) + s.lost + Sum(s.threads, Undischarged)
    && s.stats.allocs - s.stats.frees == |s.live| + s.drift - s.foreign + Sum(s.threads, Ahead)
  }

  /** What one step posts to the counters agrees with what it did to the list and the blocks. */
  ghost predicate Posted(s: State, s': State, t: nat)
    requires t < |s.threads| == |s'.threads|
  {
    var d, d' := s.stats, s'.stats;
    var th, th' := s.threads[t], s'.threads[t];
    && d'.current - d.current
       == d'.totalAllocated - d.totalAllocated - (d'.totalFreed - d.totalFreed) + Drag(th') - Drag(th)
    && d'.current - d.current + Uncharged(th') - Uncharged(th)
       == Bytes(s'.list) - Bytes(s.list) + s'.lost - s.lost + Undischarged(th') - Undischarged(th)
    && d'.allocs - d'.frees - (d.allocs - d.frees)
       == |s'.live| - |s.live| + s'.drift - s.drift - (s'.foreign - s.foreign) + Ahead(th') - Ahead(th)
  }

  /** What the books need to know of the stepping thread. */
  ghost predicate Settled(s: State, t: nat)
    requires t < |s.threads|
  {
    LocalsFit(s.threads[t]) && Owned(s.threads[t]) <= s.live
  }

  lemma BeginPosts(s: State, t: nat, a: Action)
    requires Allowed(s, t, a) && Settled(s, t) && PhaseOf(s.threads[t].pc) == Resting
    ensures Posted(s, Begin(s, t, a), t)
  {
  }

  lemma GrantPosts(s: State, t: nat, a: Action)
    requires Allowed(s, t, a) && Settled(s, t) && s.threads[t].pc.SystemAlloc?
    ensures Posted(s, Enter(s, t, a), t)
  {
  }

  lemma CountPosts(s: State, t: nat, a: Action)
    requires Allowed(s, t, a) && Settled(s, t) && s.threads[t].pc.CountAlloc?
    ensures Posted(s, Enter(s, t, a), t)
  {
  }

  lemma PushPosts(s: State, t: nat, a: Action)
    requires Allowed(s, t, a) && Settled(s, t) && s.threads[t].pc.Push?
    ensures Posted(s, Enter(s, t, a), t)
  {
    assert Enter(s, t, a).list[1..] == s.list;
  }

  lemma EnterPosts(s: State, t: nat, a: Action)
    requires Allowed(s, t, a) && Settled(s, t) && PhaseOf(s.threads[t].pc) == Entering
    ensures Posted(s, Enter(s, t, a), t)
  {
    match s.threads[t].pc
    case SystemAlloc => GrantPosts(s, t, a);
    case CountAlloc => CountPosts(s, t, a);
    case Push => PushPosts(s, t, a);
    case _ =>
  }

  lemma ChargePosts(s: State, t: nat, a: Action)
    requires Allowed(s, t, a) && Settled(s, t) && PhaseOf(s.threads[t].pc) == Charging
    ensures Posted(s, Charge(s, t, a), t)
  {
  }

  lemma SearchPosts(s: State, t: nat, a: Action)
    requires Allowed(s, t, a) && Ready(s, t) && PhaseOf(s.threads[t].pc) == Searching
    ensures Posted(s, Search(s, t, a), t)
  {
    if s.threads[t].pc.Unlink? {
      UnlinkPosts(s, t, a);
    }
  }

  lemma UnlinkPosts(s: State, t: nat, a: Action)
    requires Allowed(s, t, a) && Ready(s, t) && s.threads[t].pc.Unlink?
    ensures Posted(s, Search(s, t, a), t)
  {
    SumRemove(s.list, s.threads[t].pc.at, SizeOf);
  }

  lemma HandBackMovesOneBlock(s: State, t: nat, a: Action)
    requires Allowed(s, t, a) && Settled(s, t) && PhaseOf(s.threads[t].pc) == Returning
    ensures |HandBack(s, t, a).live| == |s.live| - (if s.threads[t].pc.SystemFree? then 1 else 0)
  {
    var p := s.threads[t].ptr;
    assert p in s.live;
    assert |s.live - {p}| == |s.live| - 1;
  }

  lemma HandBackPosts(s: State, t: nat, a: Action)
    requires Allowed(s, t, a) && Settled(s, t) && PhaseOf(s.threads[t].pc) == Returning
    ensures Posted(s, HandBack(s, t, a), t)
  {
    HandBackMovesOneBlock(s, t, a);
  }

  lemma DischargePosts(s: State, t: nat, a: Action)
    requires Allowed(s, t, a) && Settled(s, t) && PhaseOf(s.threads[t].pc) == Discharging
    ensures Posted(s, Discharge(s, t, a), t)
  {
    var s' := Discharge(s, t, a);
    assert s'.list == s.list && s'.live == s.live && s'.lost == s.lost && s'.drift == s.drift && s'.foreign == s.foreign;
  }

  lemma StepKeepsBalanced(s: State, t: nat, a: Action)
    requires Safe(s) && Balanced(s) && Allowed(s, t, a)
    ensures Balanced(Step(s, t, a))
  {
    var s' := Step(s, t, a);
    StepBehaves(s, t, a);
    assert s'.threads == s.threads[t := s'.threads[t]];
    SumUpdate(s.threads, t, s'.threads[t], Drag);
    SumUpdate(s.threads, t, s'.threads[t], Uncharged);
    SumUpdate(s.threads, t, s'.threads[t], Undischarged);
    SumUpdate(s.threads, t, s'.threads[t], Ahead);
    StepPosts(s, t, a);
  }

  lemma StepPosts(s: State, t: nat, a: Action)
    requires Safe(s) && Allowed(s, t, a)
    ensures Posted(s, Step(s, t, a), t)
  {
    match PhaseOf(s.threads[t].pc)
    case Resting => BeginPosts(s, t, a);
    case Entering => EnterPosts(s, t, a);
    case Charging => ChargePosts(s, t, a);
    case Searching => SearchPosts(s, t, a);
    case Returning => HandBackPosts(s, t, a);
    case Discharging => DischargePosts(s, t, a);
  }

  // ----- No negative usage --------------------------------------------------------------------

  /** Blocks that threads have listed but not charged have distinct entries, so they cost no more than the list. */
  lemma {:induction false} UnchargedIsListed(threads: seq<Thread>, list: seq<Entry>)
    requires forall th :: th in threads && Uncharged(th) != 0 ==> Entry(th.ptr, th.size) in list
    requires forall t, u :: 0 <= t < u < |threads| && Uncharged(threads[t]) != 0 && Uncharged(threads[u]) != 0
                            ==> threads[t].ptr != threads[u].ptr
    ensures Sum(threads, Uncharged) <= Bytes(list)
  {
    if threads == [] {
      SumNonNegative(list, SizeOf);
    } else if Uncharged(threads[0]) == 0 {
      UnchargedIsListed(threads[1..], list);
    } else {
      var e := Entry(threads[0].ptr, threads[0].size);
      var i :| 0 <= i < |list| && list[i] == e;
      SumRemove(list, i, SizeOf);
      var rest := Without(list, i);
      forall th | th in threads[1..] && Uncharged(th) != 0
        ensures Entry(th.ptr, th.size) in rest
      {
        var u :| 1 <= u < |threads| && threads[u] == th;
        var j :| 0 <= j < |list| && list[j] == Entry(th.ptr, th.size);
        assert threads[0].ptr != threads[u].ptr;
        assert rest[if j < i then j else j - 1] == list[j];
      }
      UnchargedIsListed(threads[1..], rest);
    }
  }

  lemma UsageNeverNegative(s: State)
    requires Safe(s) && Balanced(s)
    ensures s.stats.current >= 0
  {
    forall t, u | 0 <= t < u < |s.threads| && Uncharged(s.threads[t]) != 0 && Uncharged(s.threads[u]) != 0
      ensures s.threads[t].ptr != s.threads[u].ptr
    {
      assert Owned(s.threads[t]) !! Owned(s.threads[u]);
      assert s.threads[t].ptr in Owned(s.threads[t]) && s.threads[u].ptr in Owned(s.threads[u]);
    }
    UnchargedIsListed(s.threads, s.list);
    SumNonNegative(s.threads, Undischarged);
  }

  // ----- Every interleaving -------------------------------------------------------------------

  datatype Move = Move(thread: nat, action: Action)

  /** `states` is a run: each state is the previous one after one allowed step of some thread. */
  ghost predicate Run(states: seq<State>, moves: seq<Move>) {
    && |states| == |moves| + 1
    && Init(states[0])
    && forall i {:trigger moves[i]} :: 0 <= i < |moves| ==>
         && Allowed(states[i], moves[i].thread, moves[i].action)
         && states[i + 1] == Step(states[i], moves[i].thread, moves[i].action)
  }

  lemma {:induction false} RunKeepsInvariants(states: seq<State>, moves: seq<Move>, i: nat)
    requires Run(states, moves) && i < |states|
    ensures Safe(states[i]) && Balanced(states[i])
  {
    if i == 0 {
      SumZero(states[0].threads, Drag);
      SumZero(states[0].threads, Uncharged);
      SumZero(states[0].threads, Undischarged);
      SumZero(states[0].threads, Ahead);
    } else {
      RunKeepsInvariants(states, moves, i - 1);
      var m := moves[i - 1];
      StepKeepsSafe(states[i - 1], m.thread, m.action);
      StepKeepsBalanced(states[i - 1], m.thread, m.action);
    }
  }

  /**
   * In every interleaving: no address is listed twice, every listed address is a block not yet handed
   * back, no two threads are inside the lock, and the usage counter never drops below zero.
   */
  lemma TrackedListIsSound(states: seq<State>, moves: seq<Move>, i: nat)
    requires Run(states, moves) && i < |states|
    ensures forall j, k :: 0 <= j < k < |states[i].list| ==> states[i].list[j].ptr != states[i].list[k].ptr
    ensures forall j :: 0 <= j < |states[i].list| ==> states[i].list[j].ptr in states[i].live
    ensures forall t, u :: 0 <= t < u < |states[i].threads| ==>
                             !(Critical(states[i].threads[t].pc) && Critical(states[i].threads[u].pc))
    ensures states[i].stats.current >= 0
  {
    RunKeepsInvariants(states, moves, i);
    UsageNeverNegative(states[i]);
  }

  predicate Quiescent(s: State) {
    forall t :: 0 <= t < |s.threads| ==> s.threads[t].pc.Idle?
  }

  /** `neoc_get_allocation_count`, both counters read with no call in flight. */
  function AllocationCount(s: State): int {
    if s.stats.allocs > s.stats.frees then s.stats.allocs - s.stats.frees else 0
  }

  /**
   * With no call in flight the counters are exact: the usage is what was allocated and not freed, and what is
   * listed plus what lost its entry; the counts differ from the live blocks by the unlisted resizes and the
   * foreign blocks alone.
   */
  lemma QuiescentBooks(states: seq<State>, moves: seq<Move>, i: nat)
    requires Run(states, moves) && i < |states| && Quiescent(states[i])
    ensures var s := states[i];
            && s.stats.current == s.stats.totalAllocated - s.stats.totalFreed
            && s.stats.current == Bytes(s.list) + s.lost
            && s.stats.allocs - s.stats.frees == |s.live| + s.drift - s.foreign
  {
    RunKeepsInvariants(states, moves, i);
    var s := states[i];
    assert forall th :: th in s.threads ==> th.pc.Idle?;
    SumZero(s.threads, Drag);
    SumZero(s.threads, Uncharged);
    SumZero(s.threads, Undischarged);
    SumZero(s.threads, Ahead);
  }

  // ----- When every tracking entry gets its memory --------------------------------------------

  predicate Listed(list: seq<Entry>, p: Addr) {
    exists i :: 0 <= i < |list| && list[i].ptr == p
  }

  /** The block of a call in flight is tracked wherever it should be. */
  ghost predicate Covered(th: Thread, list: seq<Entry>) {
    match PhaseOf(th.pc)
    case Resting => true
    case Entering =>
      && (th.call.Resizing? ==> th.hadEntry)
      && (th.pc.UnlockAfterPush? ==> th.entered && Listed(list, th.ptr))
    case Charging => th.entered && Listed(list, th.ptr) && (th.call.Resizing? ==> th.hadEntry)
    case Searching => if th.pc.UnlockAfterWalk? then th.hadEntry else Listed(list, th.ptr)
    case Returning => th.hadEntry
    case Discharging => th.hadEntry && (th.call.Resizing? ==> Listed(list, th.ptr))
  }

  ghost predicate Complete(s: State) {
    && s.lost == 0 && s.drift == 0 && s.foreign == 0
    && (forall p :: p in s.held ==> Listed(s.list, p))
    && (forall t :: 0 <= t < |s.threads| ==> Covered(s.threads[t], s.list))
  }

  /** The system never refuses a tracking entry, and callers take every block from the tracker. */
  predicate Generous(s: State, t: nat, a: Action)
    requires t < |s.threads|
  {
    !a.TakeForeign? && !(s.threads[t].pc.NewEntry? && a.Refused?)
  }

  lemma EntriesOfOthersStay(s: State, s': State, t: nat, p: Addr)
    requires t < |s.threads| && EditsOwnEntry(s, s', t) && Listed(s.list, p)
    requires p in Owned(s.threads[t]) ==> s'.list == s.list
    ensures Listed(s'.list, p)
  {
    if s'.list != s.list {
      var i :| 0 <= i < |s.list| && s.list[i].ptr == p;
      assert s.threads[t].ptr in Owned(s.threads[t]);
      if s.list[i].ptr == s.threads[t].ptr { assert false; }
      var j :| 0 <= j < |s'.list| && s'.list[j] == s.list[i];
    }
  }

  ghost predicate StaysCovered(s: State, s': State, t: nat)
    requires t < |s.threads| == |s'.threads|
  {
    && s'.lost == s.lost && s'.drift == s.drift && s'.foreign == s.foreign
    && Covered(s'.threads[t], s'.list)
    && (forall p :: p in s'.held && p !in s.held ==> Listed(s'.list, p))
  }

  lemma BeginStaysCovered(s: State, t: nat, a: Action)
    requires Allowed(s, t, a) && LocalsFit(s.threads[t]) && PhaseOf(s.threads[t].pc) == Resting
    requires Generous(s, t, a) && (forall p :: p in s.held ==> Listed(s.list, p))
    ensures StaysCovered(s, Begin(s, t, a), t)
  {
  }

  lemma EnterStaysCovered(s: State, t: nat, a: Action)
    requires Allowed(s, t, a) && LocalsFit(s.threads[t]) && PhaseOf(s.threads[t].pc) == Entering
    requires Generous(s, t, a) && Covered(s.threads[t], s.list)
    ensures StaysCovered(s, Enter(s, t, a), t)
  {
    if s.threads[t].pc.Push? {
      assert Enter(s, t, a).list[0].ptr == s.threads[t].ptr;
    }
  }

  lemma ChargeStaysCovered(s: State, t: nat, a: Action)
    requires Allowed(s, t, a) && LocalsFit(s.threads[t]) && PhaseOf(s.threads[t].pc) == Charging
    requires Covered(s.threads[t], s.list)
    ensures StaysCovered(s, Charge(s, t, a), t)
  {
  }

  lemma SearchStaysCovered(s: State, t: nat, a: Action)
    requires Allowed(s, t, a) && PhaseOf(s.threads[t].pc) == Searching
    requires LocalsFit(s.threads[t]) && ViewFits(s.threads[t], s.list) && Covered(s.threads[t], s.list)
    ensures StaysCovered(s, Search(s, t, a), t)
  {
  }

  lemma HandBackStaysCovered(s: State, t: nat, a: Action)
    requires Allowed(s, t, a) && LocalsFit(s.threads[t]) && PhaseOf(s.threads[t].pc) == Returning
    requires Covered(s.threads[t], s.list)
    ensures StaysCovered(s, HandBack(s, t, a), t)
  {
  }

  lemma DischargeStaysCovered(s: State, t: nat, a: Action)
    requires Allowed(s, t, a) && LocalsFit(s.threads[t]) && PhaseOf(s.threads[t].pc) == Discharging
    requires Covered(s.threads[t], s.list)
    ensures StaysCovered(s, Discharge(s, t, a), t)
  {
  }

  lemma StepStaysCovered(s: State, t: nat, a: Action)
    requires Safe(s) && Complete(s) && Allowed(s, t, a) && Generous(s, t, a)
    ensures StaysCovered(s, Step(s, t, a), t)
  {
    match PhaseOf(s.threads[t].pc)
    case Resting => BeginStaysCovered(s, t, a);
    case Entering => EnterStaysCovered(s, t, a);
    case Charging => ChargeStaysCovered(s, t, a);
    case Searching => SearchStaysCovered(s, t, a);
    case Returning => HandBackStaysCovered(s, t, a);
    case Discharging => DischargeStaysCovered(s, t, a);
  }

  lemma StepKeepsComplete(s: State, t: nat, a: Action)
    requires Safe(s) && Complete(s) && Allowed(s, t, a) && Generous(s, t, a)
    ensures Complete(Step(s, t, a))
  {
    var s' := Step(s, t, a);
    StepBehaves(s, t, a);
    StepStaysCovered(s, t, a);
    forall p | p in s'.held
      ensures Listed(s'.list, p)
    {
      if p in s.held {
        EntriesOfOthersStay(s, s', t, p);
      }
    }
    forall u | 0 <= u < |s.threads| && u != t
      ensures Covered(s'.threads[u], s'.list)
    {
      var th := s.threads[u];
      assert s'.threads[u] == th;
      if Listed(s.list, th.ptr) && th.ptr in Owned(th) {
        assert Owned(s.threads[t]) !! Owned(th);
        EntriesOfOthersStay(s, s', t, th.ptr);
      }
    }
  }

  /**
   * If every tracking entry is allocated and callers take blocks only from the tracker, then with no call in
   * flight the usage is exactly the sum of the listed sizes and the reported count is the number of live blocks.
   */
  lemma GenerousBooks(states: seq<State>, moves: seq<Move>, i: nat)
    requires Run(states, moves) && i < |states| && Quiescent(states[i])
    requires forall j :: 0 <= j < i ==> Generous(states[j], moves[j].thread, moves[j].action)
    ensures states[i].stats.current == Bytes(states[i].list)
    ensures AllocationCount(states[i]) == |states[i].live|
  {
    QuiescentBooks(states, moves, i);
    GenerousRunIsComplete(states, moves, i);
  }

  lemma {:induction false} GenerousRunIsComplete(states: seq<State>, moves: seq<Move>, i: nat)
    requires Run(states, moves) && i < |states|
    requires forall j :: 0 <= j < i ==> Generous(states[j], moves[j].thread, moves[j].action)
    ensures Complete(states[i])
  {
    if i > 0 {
      GenerousRunIsComplete(states, moves, i - 1);
      RunKeepsInvariants(states, moves, i - 1);
      StepKeepsComplete(states[i - 1], moves[i - 1].thread, moves[i - 1].action);
    }
  }
}
