/**
 * What the tracker of `src/neoc_memory.c` books, measured against what callers asked for. The ledger is kept by an
 * observer who sees the requests and the system's answers, and none of the tracker's own sizes.
 */
module AllocLedger {
  import opened Prelude
  import opened AllocTracker

  /** The bytes that a call asks for. */
  function Requested(a: Action): nat {
    match a
    case CallMalloc(n) => n
    case CallCalloc(count, n) => count * n
    case CallRealloc(_, n) => n
    case _ => 0
  }

  /**
   * `asked` is each thread's last request, `sizes` the bytes of the request that produced each block in existence,
   * and `granted` the bytes of all requests that the system granted.
   */
  datatype Ledger = Ledger(asked: map<nat, nat>, sizes: map<Addr, nat>, granted: nat)

  function Asked(l: Ledger, t: nat): nat { if t in l.asked then l.asked[t] else 0 }

  /** What the observer notes when thread `t` makes a move. */
  function Observe(l: Ledger, s: State, t: nat, a: Action): Ledger
    requires t < |s.threads|
  {
    match s.threads[t].pc
    case Idle => if a.TakeForeign? then l else l.(asked := l.asked[t := Requested(a)])
    case SystemAlloc =>
      if a.Granted? then l.(sizes := l.sizes[a.addr := Asked(l, t)], granted := l.granted + Asked(l, t)) else l
    case SystemRealloc =>
      if a.Granted?
      then l.(sizes := (l.sizes - {s.threads[t].ptr})[a.addr := Asked(l, t)], granted := l.granted + Asked(l, t))
      else l
    case SystemFree => l.(sizes := l.sizes - {s.threads[t].ptr})
    case _ => l
  }

  // ----- The tracker agrees with the ledger ---------------------------------------------------

  /** A call that is on its way to a new block. */
  predicate Obtaining(th: Thread) { th.call.Allocating? || th.call.Resizing? }

  /** The block in hand is one that the ledger knows, from the grant on. */
  predicate HasBlock(pc: Pc) {
    pc.CountAlloc? || pc.NewEntry? || pc.LockForPush? || pc.Push? || pc.UnlockAfterPush? || pc.AddAllocated? || pc.AddCurrent?
  }

  predicate Before(pc: Pc) {
    pc.SystemAlloc? || pc.LockForWalk? || pc.Walk? || pc.Unlink? || pc.UnlockAfterWalk? || pc.SystemRealloc?
  }

  /** The size that a thread books is the one that was asked for. */
  predicate Honest(th: Thread, asked: nat, sizes: map<Addr, nat>) {
    && (Before(th.pc) && Obtaining(th) ==> th.size == asked)
    && (HasBlock(th.pc) ==> th.ptr in sizes && sizes[th.ptr] == th.size)
    && (HasBlock(th.pc) && Obtaining(th) ==> th.size == asked)
    && ((th.pc.UnlockAfterWalk? || th.pc.SystemRealloc?) && th.hadEntry ==> th.ptr in sizes && sizes[th.ptr] == th.oldSize)
  }

  predicate ListHonest(list: seq<Entry>, sizes: map<Addr, nat>) {
    forall i :: 0 <= i < |list| ==> list[i].ptr in sizes && sizes[list[i].ptr] == list[i].size
  }

  ghost predicate Agree(s: State, l: Ledger) {
    && l.sizes.Keys <= s.live
    && ListHonest(s.list, l.sizes)
    && (forall t :: 0 <= t < |s.threads| ==> Honest(s.threads[t], Asked(l, t), l.sizes))
  }

  /** The bytes that a thread was granted and has not yet added to the total. */
  function Owing(th: Thread): int {
    if Obtaining(th) && HasBlock(th.pc) && !th.pc.AddCurrent? then th.size else 0
  }

  ghost predicate TotalAgrees(s: State, l: Ledger) {
    s.stats.totalAllocated + Sum(s.threads, Owing) == l.granted
  }

  // ----- One step -----------------------------------------------------------------------------

  /** What a step does to the ledger concerns the stepping thread's own block, or one that is not in use. */
  ghost predicate TouchesOwn(s: State, l: Ledger, l': Ledger, t: nat)
    requires t < |s.threads|
  {
    && (forall u :: 0 <= u < |s.threads| && u != t ==> Asked(l', u) == Asked(l, u))
    && (forall p :: p in s.live && p !in Owned(s.threads[t]) ==>
          (p in l'.sizes <==> p in l.sizes) && (p in l.sizes ==> l'.sizes[p] == l.sizes[p]))
  }

  lemma ObserveTouchesOwn(s: State, l: Ledger, t: nat, a: Action)
    requires Allowed(s, t, a)
    ensures TouchesOwn(s, l, Observe(l, s, t, a), t)
  {
  }

  lemma BeginHonest(s: State, l: Ledger, t: nat, a: Action)
    requires Allowed(s, t, a) && Agree(s, l) && PhaseOf(s.threads[t].pc) == Resting
    ensures var s', l' := Begin(s, t, a), Observe(l, s, t, a);
            |s'.threads| == |s.threads| && Honest(s'.threads[t], Asked(l', t), l'.sizes)
            && ListHonest(s'.list, l'.sizes) && l'.sizes.Keys <= s'.live
  {
  }

  lemma EnterHonest(s: State, l: Ledger, t: nat, a: Action)
    requires Allowed(s, t, a) && Ready(s, t) && Agree(s, l) && PhaseOf(s.threads[t].pc) == Entering
    ensures var s', l' := Enter(s, t, a), Observe(l, s, t, a);
            |s'.threads| == |s.threads| && Honest(s'.threads[t], Asked(l', t), l'.sizes)
            && ListHonest(s'.list, l'.sizes) && l'.sizes.Keys <= s'.live
  {
  }

  lemma ChargeHonest(s: State, l: Ledger, t: nat, a: Action)
    requires Allowed(s, t, a) && Agree(s, l) && PhaseOf(s.threads[t].pc) == Charging
    ensures var s', l' := Charge(s, t, a), Observe(l, s, t, a);
            |s'.threads| == |s.threads| && Honest(s'.threads[t], Asked(l', t), l'.sizes)
            && ListHonest(s'.list, l'.sizes) && l'.sizes.Keys <= s'.live
  {
    var s' := Charge(s, t, a);
    assert s'.list == s.list && s'.live == s.live && Observe(l, s, t, a) == l;
  }

  lemma SearchHonest(s: State, l: Ledger, t: nat, a: Action)
    requires Allowed(s, t, a) && Ready(s, t) && Agree(s, l) && PhaseOf(s.threads[t].pc) == Searching
    ensures var s', l' := Search(s, t, a), Observe(l, s, t, a);
            |s'.threads| == |s.threads| && Honest(s'.threads[t], Asked(l', t), l'.sizes)
            && ListHonest(s'.list, l'.sizes) && l'.sizes.Keys <= s'.live
  {
  }

  lemma HandBackHonest(s: State, l: Ledger, t: nat, a: Action)
    requires Allowed(s, t, a) && Ready(s, t) && Agree(s, l) && PhaseOf(s.threads[t].pc) == Returning
    ensures var s', l' := HandBack(s, t, a), Observe(l, s, t, a);
            |s'.threads| == |s.threads| && Honest(s'.threads[t], Asked(l', t), l'.sizes)
            && ListHonest(s'.list, l'.sizes) && l'.sizes.Keys <= s'.live
  {
  }

  lemma DischargeHonest(s: State, l: Ledger, t: nat, a: Action)
    requires Allowed(s, t, a) && Agree(s, l) && PhaseOf(s.threads[t].pc) == Discharging
    ensures var s', l' := Discharge(s, t, a), Observe(l, s, t, a);
            |s'.threads| == |s.threads| && Honest(s'.threads[t], Asked(l', t), l'.sizes)
            && ListHonest(s'.list, l'.sizes) && l'.sizes.Keys <= s'.live
  {
  }

  /** What a step leaves honest: its own thread, the list, and no block without existence. */
  ghost predicate OwnHonest(s': State, l': Ledger, t: nat)
    requires t < |s'.threads|
  {
    Honest(s'.threads[t], Asked(l', t), l'.sizes) && ListHonest(s'.list, l'.sizes) && l'.sizes.Keys <= s'.live
  }

  lemma StepHonest(s: State, l: Ledger, t: nat, a: Action)
    requires Allowed(s, t, a) && Ready(s, t) && Agree(s, l)
    ensures t < |Step(s, t, a).threads| && OwnHonest(Step(s, t, a), Observe(l, s, t, a), t)
  {
    match PhaseOf(s.threads[t].pc)
    case Resting => BeginHonest(s, l, t, a);
    case Entering => EnterHonest(s, l, t, a);
    case Charging => ChargeHonest(s, l, t, a);
    case Searching => SearchHonest(s, l, t, a);
    case Returning => HandBackHonest(s, l, t, a);
    case Discharging => DischargeHonest(s, l, t, a);
  }

  lemma OtherStaysHonest(s: State, l: Ledger, l': Ledger, t: nat, u: nat)
    requires Safe(s) && Agree(s, l) && t < |s.threads| && u < |s.threads| && u != t && TouchesOwn(s, l, l', t)
    ensures Honest(s.threads[u], Asked(l', u), l'.sizes)
  {
    var th := s.threads[u];
    assert Honest(th, Asked(l, u), l.sizes);
    assert Owned(s.threads[t]) !! Owned(th);
    if HasBlock(th.pc) || th.pc.UnlockAfterWalk? || th.pc.SystemRealloc? {
      assert th.ptr in Owned(th) && th.ptr in s.live;
    }
  }

  lemma StepKeepsAgree(s: State, l: Ledger, t: nat, a: Action)
    requires Safe(s) && Allowed(s, t, a) && Agree(s, l)
    ensures Agree(Step(s, t, a), Observe(l, s, t, a))
  {
    var s', l' := Step(s, t, a), Observe(l, s, t, a);
    StepBehaves(s, t, a);
    StepHonest(s, l, t, a);
    ObserveTouchesOwn(s, l, t, a);
    forall u | 0 <= u < |s'.threads| && u != t
      ensures Honest(s'.threads[u], Asked(l', u), l'.sizes)
    {
      OtherStaysHonest(s, l, l', t, u);
      assert s'.threads[u] == s.threads[u];
    }
  }

  // ----- The total ----------------------------------------------------------------------------

  /** What a step adds to the total is what the ledger has granted and not yet seen added. */
  ghost predicate TotalPosted(s: State, s': State, l: Ledger, l': Ledger, t: nat)
    requires t < |s.threads| == |s'.threads|
  {
    s'.stats.totalAllocated - s.stats.totalAllocated + Owing(s'.threads[t]) - Owing(s.threads[t]) == l'.granted - l.granted
  }

  lemma StepPostsTotal(s: State, l: Ledger, t: nat, a: Action)
    requires Allowed(s, t, a) && LocalsFit(s.threads[t]) && Honest(s.threads[t], Asked(l, t), l.sizes)
    ensures |Step(s, t, a).threads| == |s.threads|
    ensures TotalPosted(s, Step(s, t, a), l, Observe(l, s, t, a), t)
  {
    match PhaseOf(s.threads[t].pc)
    case Resting => BeginPostsTotal(s, l, t, a);
    case Entering => EnterPostsTotal(s, l, t, a);
    case Charging => ChargePostsTotal(s, l, t, a);
    case Searching => SearchPostsTotal(s, l, t, a);
    case Returning => HandBackPostsTotal(s, l, t, a);
    case Discharging =>
  }

  lemma BeginPostsTotal(s: State, l: Ledger, t: nat, a: Action)
    requires Allowed(s, t, a) && LocalsFit(s.threads[t]) && PhaseOf(s.threads[t].pc) == Resting
    ensures |Begin(s, t, a).threads| == |s.threads|
    ensures TotalPosted(s, Begin(s, t, a), l, Observe(l, s, t, a), t)
  {
  }

  lemma SearchPostsTotal(s: State, l: Ledger, t: nat, a: Action)
    requires Allowed(s, t, a) && LocalsFit(s.threads[t]) && PhaseOf(s.threads[t].pc) == Searching
    ensures |Search(s, t, a).threads| == |s.threads|
    ensures TotalPosted(s, Search(s, t, a), l, Observe(l, s, t, a), t)
  {
  }

  lemma ChargePostsTotal(s: State, l: Ledger, t: nat, a: Action)
    requires Allowed(s, t, a) && LocalsFit(s.threads[t]) && PhaseOf(s.threads[t].pc) == Charging
    ensures |Charge(s, t, a).threads| == |s.threads|
    ensures TotalPosted(s, Charge(s, t, a), l, Observe(l, s, t, a), t)
  {
  }

  lemma EnterPostsTotal(s: State, l: Ledger, t: nat, a: Action)
    requires Allowed(s, t, a) && LocalsFit(s.threads[t]) && Honest(s.threads[t], Asked(l, t), l.sizes)
    requires PhaseOf(s.threads[t].pc) == Entering
    ensures |Enter(s, t, a).threads| == |s.threads|
    ensures TotalPosted(s, Enter(s, t, a), l, Observe(l, s, t, a), t)
  {
  }

  lemma HandBackPostsTotal(s: State, l: Ledger, t: nat, a: Action)
    requires Allowed(s, t, a) && LocalsFit(s.threads[t]) && Honest(s.threads[t], Asked(l, t), l.sizes)
    requires PhaseOf(s.threads[t].pc) == Returning
    ensures |HandBack(s, t, a).threads| == |s.threads|
    ensures TotalPosted(s, HandBack(s, t, a), l, Observe(l, s, t, a), t)
  {
  }

  lemma StepKeepsTotal(s: State, l: Ledger, t: nat, a: Action)
    requires Safe(s) && Allowed(s, t, a) && Agree(s, l) && TotalAgrees(s, l)
    ensures TotalAgrees(Step(s, t, a), Observe(l, s, t, a))
  {
    var s' := Step(s, t, a);
    StepBehaves(s, t, a);
    assert s'.threads == s.threads[t := s'.threads[t]];
    SumUpdate(s.threads, t, s'.threads[t], Owing);
    StepPostsTotal(s, l, t, a);
  }

  // ----- Every interleaving -------------------------------------------------------------------

  /** The ledger after the first `i` moves of a run. */
  ghost function LedgerAt(states: seq<State>, moves: seq<Move>, i: nat): Ledger
    requires Run(states, moves) && i < |states|
  {
    if i == 0 then Ledger(map[], map[], 0)
    else
      var m := moves[i - 1];
      Observe(LedgerAt(states, moves, i - 1), states[i - 1], m.thread, m.action)
  }

  ghost predicate Matches(s: State, l: Ledger) { Agree(s, l) && TotalAgrees(s, l) }

  lemma {:induction false} RunAgrees(states: seq<State>, moves: seq<Move>, i: nat)
    requires Run(states, moves) && i < |states|
    ensures Matches(states[i], LedgerAt(states, moves, i))
  {
    if i == 0 {
      StartMatches(states[0]);
    } else {
      RunAgrees(states, moves, i - 1);
      LedgerNext(states, moves, i - 1);
      MoveKeepsAgree(states, moves, i - 1, LedgerAt(states, moves, i - 1), LedgerAt(states, moves, i));
    }
  }

  lemma LedgerNext(states: seq<State>, moves: seq<Move>, i: nat)
    requires Run(states, moves) && i < |moves|
    ensures LedgerAt(states, moves, i + 1)
         == Observe(LedgerAt(states, moves, i), states[i], moves[i].thread, moves[i].action)
  {
  }

  lemma StartMatches(s: State)
    requires Init(s)
    ensures Matches(s, Ledger(map[], map[], 0))
  {
    SumZero(s.threads, Owing);
  }

  lemma MoveKeepsAgree(states: seq<State>, moves: seq<Move>, i: nat, l: Ledger, l': Ledger)
    requires Run(states, moves) && i < |moves| && Matches(states[i], l)
    requires l' == Observe(l, states[i], moves[i].thread, moves[i].action)
    ensures Matches(states[i + 1], l')
  {
    RunKeepsInvariants(states, moves, i);
    StepKeepsAgree(states[i], l, moves[i].thread, moves[i].action);
    StepKeepsTotal(states[i], l, moves[i].thread, moves[i].action);
  }

  /** In every interleaving each listed size is what was asked for, and with no call in flight the total is what was granted. */
  lemma BooksMatchRequests(states: seq<State>, moves: seq<Move>, i: nat)
    requires Run(states, moves) && i < |states|
    ensures ListHonest(states[i].list, LedgerAt(states, moves, i).sizes)
    ensures Quiescent(states[i]) ==> states[i].stats.totalAllocated == LedgerAt(states, moves, i).granted
  {
    RunAgrees(states, moves, i);
    if Quiescent(states[i]) {
      assert forall th :: th in states[i].threads ==> th.pc.Idle?;
      SumZero(states[i].threads, Owing);
    }
  }

  // ----- Every live block is in someone's hands -----------------------------------------------

  /** Every block in existence is held by a caller or in the hands of a call. */
  ghost predicate Accounted(s: State) {
    forall p :: p in s.live ==> p in s.held || InHand(s, p)
  }

  ghost predicate InHand(s: State, p: Addr) {
    exists t :: 0 <= t < |s.threads| && p in Owned(s.threads[t])
  }

  /** A step drops no block: what the caller or the call had is freed, or still with one of them. */
  ghost predicate DropsNothing(s: State, s': State, t: nat)
    requires t < |s.threads| == |s'.threads|
  {
    var o, o' := Owned(s.threads[t]), Owned(s'.threads[t]);
    forall p :: p in s'.live && (p in s.held || p in o || p !in s.live) ==> p in s'.held || p in o'
  }

  lemma StepDropsNothing(s: State, t: nat, a: Action)
    requires Allowed(s, t, a) && LocalsFit(s.threads[t])
    ensures |Step(s, t, a).threads| == |s.threads| && DropsNothing(s, Step(s, t, a), t)
  {
    match PhaseOf(s.threads[t].pc)
    case Resting => BeginDropsNothing(s, t, a);
    case Entering => EnterDropsNothing(s, t, a);
    case Charging => ChargeDropsNothing(s, t, a);
    case Searching =>
    case Returning => HandBackDropsNothing(s, t, a);
    case Discharging =>
  }

  lemma BeginDropsNothing(s: State, t: nat, a: Action)
    requires Allowed(s, t, a) && LocalsFit(s.threads[t]) && PhaseOf(s.threads[t].pc) == Resting
    ensures |Begin(s, t, a).threads| == |s.threads| && DropsNothing(s, Begin(s, t, a), t)
  {
  }

  lemma EnterDropsNothing(s: State, t: nat, a: Action)
    requires Allowed(s, t, a) && LocalsFit(s.threads[t]) && PhaseOf(s.threads[t].pc) == Entering
    ensures |Enter(s, t, a).threads| == |s.threads| && DropsNothing(s, Enter(s, t, a), t)
  {
  }

  lemma ChargeDropsNothing(s: State, t: nat, a: Action)
    requires Allowed(s, t, a) && LocalsFit(s.threads[t]) && PhaseOf(s.threads[t].pc) == Charging
    ensures |Charge(s, t, a).threads| == |s.threads| && DropsNothing(s, Charge(s, t, a), t)
  {
  }

  lemma HandBackDropsNothing(s: State, t: nat, a: Action)
    requires Allowed(s, t, a) && LocalsFit(s.threads[t]) && PhaseOf(s.threads[t].pc) == Returning
    ensures |HandBack(s, t, a).threads| == |s.threads| && DropsNothing(s, HandBack(s, t, a), t)
  {
  }

  lemma StepKeepsAccounted(s: State, t: nat, a: Action)
    requires Safe(s) && Allowed(s, t, a) && Accounted(s)
    ensures Accounted(Step(s, t, a))
  {
    var s' := Step(s, t, a);
    StepBehaves(s, t, a);
    StepDropsNothing(s, t, a);
    forall p | p in s'.live && p !in s'.held
      ensures InHand(s', p)
    {
      if p in s.live && p !in s.held && p !in Owned(s.threads[t]) {
        var u :| 0 <= u < |s.threads| && p in Owned(s.threads[u]);
        assert s'.threads[u] == s.threads[u];
      } else {
        assert p in Owned(s'.threads[t]);
      }
    }
  }

  // ----- When every tracking entry gets its memory --------------------------------------------

  /** The ledger knows every block in existence. */
  ghost predicate KnowsAll(s: State, l: Ledger) { l.sizes.Keys == s.live }

  lemma StepKeepsKnown(s: State, l: Ledger, t: nat, a: Action)
    requires Allowed(s, t, a) && Generous(s, t, a) && KnowsAll(s, l)
    ensures KnowsAll(Step(s, t, a), Observe(l, s, t, a))
  {
  }

  lemma {:induction false} GenerousRunKnowsAll(states: seq<State>, moves: seq<Move>, i: nat)
    requires Run(states, moves) && i < |states|
    requires forall j :: 0 <= j < i ==> Generous(states[j], moves[j].thread, moves[j].action)
    ensures KnowsAll(states[i], LedgerAt(states, moves, i)) && Accounted(states[i])
  {
    if i > 0 {
      GenerousRunKnowsAll(states, moves, i - 1);
      LedgerNext(states, moves, i - 1);
      MoveKeepsKnown(states, moves, i - 1, LedgerAt(states, moves, i - 1));
    }
  }

  lemma MoveKeepsKnown(states: seq<State>, moves: seq<Move>, i: nat, l: Ledger)
    requires Run(states, moves) && i < |moves| && KnowsAll(states[i], l) && Accounted(states[i])
    requires Generous(states[i], moves[i].thread, moves[i].action)
    ensures KnowsAll(states[i + 1], Observe(l, states[i], moves[i].thread, moves[i].action)) && Accounted(states[i + 1])
  {
    RunKeepsInvariants(states, moves, i);
    StepKeepsKnown(states[i], l, moves[i].thread, moves[i].action);
    StepKeepsAccounted(states[i], moves[i].thread, moves[i].action);
  }

  /** The sum of the values of a map. */
  ghost function MapTotal(m: map<Addr, nat>): int
    decreases |m|
  {
    if m.Keys == {} then 0
    else
      var k :| k in m;
      assert |m - {k}| < |m| by { assert (m - {k}).Keys == m.Keys - {k}; }
      m[k] + MapTotal(m - {k})
  }

  lemma {:induction false} MapTotalRemove(m: map<Addr, nat>, k: Addr)
    requires k in m
    ensures MapTotal(m) == m[k] + MapTotal(m - {k})
    decreases |m|
  {
    assert m.Keys != {};
    var c :| c in m && MapTotal(m) == m[c] + MapTotal(m - {c});
    assert |m - {c}| < |m| by { assert (m - {c}).Keys == m.Keys - {c}; }
    if c != k {
      MapTotalRemove(m - {c}, k);
      assert |m - {k}| < |m| by { assert (m - {k}).Keys == m.Keys - {k}; }
      MapTotalRemove(m - {k}, c);
      assert m - {c} - {k} == m - {k} - {c};
    }
  }

  /** A list of distinct blocks with the bytes of a map, and all of them, adds up to the map. */
  lemma {:induction false} BytesAreTotal(list: seq<Entry>, m: map<Addr, nat>)
    requires forall i, j :: 0 <= i < j < |list| ==> list[i].ptr != list[j].ptr
    requires ListHonest(list, m) && forall p :: p in m ==> Listed(list, p)
    ensures Bytes(list) == MapTotal(m)
    decreases |list|
  {
    if list == [] {
      assert forall p :: p in m ==> !Listed(list, p);
    } else {
      var p, rest := list[0].ptr, list[1..];
      MapTotalRemove(m, p);
      forall q | q in m - {p}
        ensures Listed(rest, q)
      {
        var i :| 0 <= i < |list| && list[i].ptr == q;
        assert rest[i - 1].ptr == q;
      }
      BytesAreTotal(rest, m - {p});
    }
  }

  /**
   * If every tracking entry is allocated and callers take blocks only from the tracker, then with no call in flight
   * the list holds exactly the blocks that callers hold, each with the bytes of the request that produced it, and the
   * usage is the sum of those bytes.
   */
  lemma UsageIsWhatIsHeld(states: seq<State>, moves: seq<Move>, i: nat)
    requires Run(states, moves) && i < |states| && Quiescent(states[i])
    requires forall j :: 0 <= j < i ==> Generous(states[j], moves[j].thread, moves[j].action)
    ensures var s, sizes := states[i], LedgerAt(states, moves, i).sizes;
            && sizes.Keys == s.held == s.live
            && (forall p :: p in sizes <==> Listed(s.list, p))
            && ListHonest(s.list, sizes)
            && s.stats.current == MapTotal(sizes)
  {
    var s, l := states[i], LedgerAt(states, moves, i);
    RunKeepsInvariants(states, moves, i);
    RunAgrees(states, moves, i);
    GenerousBooks(states, moves, i);
    GenerousRunIsComplete(states, moves, i);
    GenerousRunKnowsAll(states, moves, i);
    HeldIsLive(s);
    BytesAreTotal(s.list, l.sizes);
  }

  lemma HeldIsLive(s: State)
    requires Safe(s) && Accounted(s) && Quiescent(s)
    ensures s.held == s.live
  {
    forall p | p in s.live
      ensures p in s.held
    {
      assert !InHand(s, p);
    }
  }
}
