/** When a call keeps the heap of `StackHeap` free of cycles, and what that means for the end of a run. */
module StackCycles {
  import opened Prelude
  import opened StackHeap

  /** Following references from `x` leads to `y`. */
  ghost predicate Leads(h: Heap, x: Addr, y: Addr) { Reachable(h, multiset{x}, y) }

  lemma LeadsToItself(h: Heap, x: Addr)
    ensures Leads(h, x, x)
  {
    RootIsReachable(h, multiset{x}, x);
  }

  lemma PathStep(h: Heap, roots: multiset<Addr>, p: seq<Addr>, y: Addr)
    requires Path(h, roots, p) && p[|p| - 1] < |h| && y in RefsOf(h[p[|p| - 1]])
    ensures Path(h, roots, p + [y])
  {
    assert (p + [y])[..|p|] == p;
  }

  /** A first step and a way from there make a way. */
  lemma {:induction false} PathFromReferrer(h: Heap, z: Addr, y: Addr, p: seq<Addr>)
    requires z < |h| && y in RefsOf(h[z]) && Path(h, multiset{y}, p)
    ensures Path(h, multiset{z}, [z] + p)
    decreases |p|
  {
    var p', y' := p[..|p| - 1], p[|p| - 1];
    assert [z] + p' + [y'] == [z] + p;
    if |p| == 1 {
      assert p' == [] && [z] + p' == [z];
      PathStep(h, multiset{z}, [z], y');
    } else {
      PathFromReferrer(h, z, y, p');
      PathStep(h, multiset{z}, [z] + p', y');
    }
  }

  lemma LeadsFromReferrer(h: Heap, z: Addr, y: Addr, x: Addr)
    requires z < |h| && y in RefsOf(h[z]) && Leads(h, y, x)
    ensures Leads(h, z, x)
  {
    var p :| Path(h, multiset{y}, p) && p[|p| - 1] == x;
    PathFromReferrer(h, z, y, p);
    assert ([z] + p)[|[z] + p| - 1] == x;
  }

  /** Ranks do not rise along a way. */
  lemma {:induction false} RankFalls(h: Heap, rank: Addr -> nat, bound: nat, x: Addr, p: seq<Addr>)
    requires Ranked(h, rank, bound) && Path(h, multiset{x}, p)
    ensures rank(p[|p| - 1]) <= rank(x)
    decreases |p|
  {
    if |p| > 1 {
      RankFalls(h, rank, bound, x, p[..|p| - 1]);
    }
  }

  /** A reference back to where one came from closes a cycle. */
  lemma ReturnIsACycle(h: Heap, a: Addr, x: Addr)
    requires a < |h| && x in RefsOf(h[a]) && Leads(h, x, a)
    ensures !Acyclic(h)
  {
    if Acyclic(h) {
      var rank: Addr -> nat, bound: nat :| Ranked(h, rank, bound);
      var p :| Path(h, multiset{x}, p) && p[|p| - 1] == a;
      RankFalls(h, rank, bound, x, p);
      assert false;
    }
  }

  // ----- New references -----------------------------------------------------------------------

  /** Every reference of `h'` is one of `h`, or one from `a` to `x` or `y`. */
  ghost predicate OnlyAdds(h: Heap, h': Heap, a: Addr, x: Addr, y: Addr) {
    forall z, w :: 0 <= z < |h'| && w in RefsOf(h'[z]) ==>
      (z < |h| && w in RefsOf(h[z])) || (z == a && (w == x || w == y))
  }

  /** What leads to `a` moves above everything that the new references point to. */
  ghost function Lifted(h: Heap, rank: Addr -> nat, a: Addr, shift: nat): Addr -> nat {
    (z: Addr) => if Leads(h, z, a) then rank(z) + shift else rank(z)
  }

  /** Referring from `a` to items that do not lead to `a` closes no cycle. */
  lemma AddingKeepsAcyclic(h: Heap, h': Heap, a: Addr, x: Addr, y: Addr)
    requires Acyclic(h) && OnlyAdds(h, h', a, x, y) && !Leads(h, x, a) && !Leads(h, y, a)
    ensures Acyclic(h')
  {
    var rank: Addr -> nat, bound: nat :| Ranked(h, rank, bound);
    var shift := rank(x) + rank(y) + 1;
    var rank', bound' := Lifted(h, rank, a, shift), bound + rank(a) + shift;
    forall z, w | 0 <= z < |h'| && w in RefsOf(h'[z])
      ensures rank'(w) < rank'(z) <= bound'
    {
      if z < |h| && w in RefsOf(h[z]) {
        if Leads(h, w, a) {
          LeadsFromReferrer(h, z, w, a);
        }
      } else {
        LeadsToItself(h, a);
      }
    }
    assert Ranked(h', rank', bound');
  }

  /** Every item but `a` that `x` leads to in `h'` has the references it had in `h`. */
  ghost predicate KeepsWay(h: Heap, h': Heap, a: Addr, x: Addr) {
    |h'| == |h| && forall z: Addr :: z != a && z < |h| && Leads(h', x, z) ==> RefsOf(h'[z]) == RefsOf(h[z])
  }

  /** What leads to `a` in `h` still does in `h'`, if every item on the way but `a` keeps its references. */
  lemma {:induction false} WayIsKept(h: Heap, h': Heap, a: Addr, x: Addr, p: seq<Addr>)
    requires Path(h, multiset{x}, p)
    requires KeepsWay(h, h', a, x)
    ensures Leads(h', x, a) || Path(h', multiset{x}, p)
    decreases |p|
  {
    if |p| > 1 {
      var q := p[..|p| - 1];
      WayIsKept(h, h', a, x, q);
      if !Leads(h', x, a) {
        assert Leads(h', x, q[|q| - 1]);
      }
    }
  }

  lemma LeadingIsKept(h: Heap, h': Heap, a: Addr, x: Addr)
    requires Leads(h, x, a)
    requires KeepsWay(h, h', a, x)
    ensures Leads(h', x, a)
  {
    var p :| Path(h, multiset{x}, p) && p[|p| - 1] == a;
    WayIsKept(h, h', a, x, p);
  }

  // ----- The calls ----------------------------------------------------------------------------

  /** Whether a full container can be enlarged. */
  predicate HasRoom(h: Heap, a: Addr, memory: bool)
    requires a < |h| && h[a].Live?
  {
    memory || |h[a].refs| < (if h[a].kind == Mapping then 2 * h[a].capacity else h[a].capacity)
  }

  /** What a caller can check before a call: nothing that is put into a container leads to the container. */
  ghost predicate Harmless(s: State, op: Op) {
    match op
    case Add(a, x, memory) =>
      Owned(s, a) && s.heap[a].kind.Sequence? && HasRoom(s.heap, a, memory) ==> !Leads(s.heap, x, a)
    case Put(m, k, v, hit, memory) =>
      Owned(s, m) && s.heap[m].kind == Mapping && (hit.None? ==> HasRoom(s.heap, m, memory)) ==>
        !Leads(s.heap, v, m) && (hit.None? ==> !Leads(s.heap, k, m))
    case _ => true
  }

  /** References are unchanged but for those of `a`. */
  ghost predicate OnlyChanges(h: Heap, h': Heap, a: Addr) {
    |h'| == |h| && forall z :: 0 <= z < |h| && z != a ==> RefsOf(h'[z]) == RefsOf(h[z])
  }

  lemma AddExactly(h: Heap, a: Addr, x: Addr, memory: bool)
    requires a < |h| && h[a].Live? && x < |h| && h[x].Live? && Acyclic(h)
    ensures Acyclic(AddItem(h, a, x, memory)) <==>
            (h[a].kind.Sequence? && HasRoom(h, a, memory) ==> !Leads(h, x, a))
  {
    var h' := AddItem(h, a, x, memory);
    if h[a].kind.Sequence? && HasRoom(h, a, memory) {
      assert RefsOf(h'[a]) == RefsOf(h[a]) + [x];
      assert OnlyChanges(h, h', a);
      if Leads(h, x, a) {
        LeadingIsKept(h, h', a, x);
        ReturnIsACycle(h', a, x);
      } else {
        AddingKeepsAcyclic(h, h', a, x, x);
      }
    }
  }

  lemma AppendExactly(h: Heap, m: Addr, k: Addr, v: Addr, memory: bool)
    requires m < |h| && h[m].Live? && h[m].kind == Mapping && k < |h| && h[k].Live? && v < |h| && h[v].Live? && Acyclic(h)
    ensures Acyclic(AppendEntry(h, m, k, v, memory)) <==>
            (HasRoom(h, m, memory) ==> !Leads(h, v, m) && !Leads(h, k, m))
  {
    var h' := AppendEntry(h, m, k, v, memory);
    if HasRoom(h, m, memory) {
      assert RefsOf(h'[m]) == RefsOf(h[m]) + [k, v];
      assert OnlyChanges(h, h', m);
      if Leads(h, k, m) {
        LeadingIsKept(h, h', m, k);
        ReturnIsACycle(h', m, k);
      } else if Leads(h, v, m) {
        LeadingIsKept(h, h', m, v);
        ReturnIsACycle(h', m, v);
      } else {
        AddingKeepsAcyclic(h, h', m, k, v);
      }
    }
  }

  lemma {:induction false} PathFromRoots(h: Heap, roots: multiset<Addr>, x: Addr, p: seq<Addr>)
    requires x in roots && Path(h, multiset{x}, p)
    ensures Path(h, roots, p)
    decreases |p|
  {
    if |p| > 1 {
      PathFromRoots(h, roots, x, p[..|p| - 1]);
    }
  }

  lemma LedToIsLive(h: Heap, roots: multiset<Addr>, x: Addr, z: Addr)
    requires Counted(h, {}, roots) && x in roots && Leads(h, x, z)
    ensures z < |h| && h[z].Live?
  {
    var p :| Path(h, multiset{x}, p) && p[|p| - 1] == z;
    PathFromRoots(h, roots, x, p);
    PathIsLive(h, roots, p);
  }

  /** Replacing a value rewires the map alone; everything else is freed or as it was. */
  lemma ReplaceShape(h: Heap, roots: multiset<Addr>, m: Addr, v: Addr, at: nat)
    requires Counted(h, {}, roots) && m in roots && v in roots
    requires m < |h| && h[m].Live? && v < |h| && at < |h[m].refs|
    ensures var h' := ReplaceValue(h, m, v, at);
            && |h'| == |h|
            && h'[m].Live? && h'[m].kind == h[m].kind && h'[m].refs == h[m].refs[at := v]
            && forall z :: 0 <= z < |h| && z != m ==>
                 h'[z].Freed? || (h[z].Live? && h'[z].kind == h[z].kind && h'[z].refs == h[z].refs)
  {
    var refs, old' := h[m].refs, h[m].refs[at];
    var kept := roots + multiset(refs) - multiset{old'};
    BusyIsOutside(h, roots, m);
    assert old' in multiset(refs);
    assert kept + multiset([old']) == roots + multiset(refs);
    ReleaseKeepsCounted(h, {m}, kept, [old']);
    ReleaseKeepsShape(h, [old']);
    var h1 := Release(h, [old']);
    ReferencedIsLive(h1, {m}, kept, m);
    ReferencedIsLive(h1, {m}, kept, v);
    assert Survives(h[m], h1[m]) && Survives(h[v], h1[v]);
  }

  lemma ReplaceExactly(h: Heap, roots: multiset<Addr>, m: Addr, v: Addr, at: nat)
    requires Counted(h, {}, roots) && m in roots && v in roots && Acyclic(h)
    requires m < |h| && h[m].Live? && v < |h| && at < |h[m].refs|
    ensures Acyclic(ReplaceValue(h, m, v, at)) <==> !Leads(h, v, m)
  {
    var h' := ReplaceValue(h, m, v, at);
    ReplaceShape(h, roots, m, v, at);
    ReplaceKeepsCounted(h, roots, m, v, at);
    assert v == h'[m].refs[at];
    if Leads(h, v, m) {
      forall z: Addr | z != m && z < |h| && Leads(h', v, z)
        ensures RefsOf(h'[z]) == RefsOf(h[z])
      {
        LedToIsLive(h', roots, v, z);
      }
      LeadingIsKept(h, h', m, v);
      ReturnIsACycle(h', m, v);
    } else {
      assert OnlyAdds(h, h', m, v, v);
      AddingKeepsAcyclic(h, h', m, v, v);
    }
  }

  lemma SameReferencesAcyclic(h: Heap, h': Heap)
    requires Acyclic(h) && forall z, w :: 0 <= z < |h'| && w in RefsOf(h'[z]) ==> z < |h| && w in RefsOf(h[z])
    ensures Acyclic(h')
  {
    var rank: Addr -> nat, bound: nat :| Ranked(h, rank, bound);
    assert Ranked(h', rank, bound);
  }

  /** On an acyclic heap a call keeps the heap acyclic if and only if it is harmless. */
  lemma StepKeepsAcyclicExactly(s: State, op: Op)
    requires Inv(s) && Allowed(s, op) && Acyclic(s.heap)
    ensures Acyclic(Step(s, op).heap) <==> Harmless(s, op)
  {
    match op
    case Create(_, _) => SameReferencesAcyclic(s.heap, Step(s, op).heap);
    case Ref(_) => SameReferencesAcyclic(s.heap, Step(s, op).heap);
    case Unref(x) =>
      ReleaseKeepsShape(s.heap, [x]);
      SurvivorsAcyclic(s.heap, Step(s, op).heap);
    case Add(a, x, memory) =>
      ReferencedIsLive(s.heap, {}, s.roots, a);
      ReferencedIsLive(s.heap, {}, s.roots, x);
      AddExactly(s.heap, a, x, memory);
    case Put(m, k, v, hit, memory) =>
      ReferencedIsLive(s.heap, {}, s.roots, m);
      ReferencedIsLive(s.heap, {}, s.roots, k);
      ReferencedIsLive(s.heap, {}, s.roots, v);
      if s.heap[m].kind == Mapping {
        if hit.None? {
          AppendExactly(s.heap, m, k, v, memory);
        } else {
          ReplaceExactly(s.heap, s.roots, m, v, 2 * hit.value + 1);
        }
      }
  }

  // ----- Whole runs ---------------------------------------------------------------------------

  lemma EmptyIsAcyclic()
    ensures Acyclic([])
  {
    var rank := (x: Addr) => 0;
    assert Ranked([], rank, 0);
  }

  ghost predicate AlwaysAcyclic(states: seq<State>, i: nat)
    requires i < |states|
  {
    forall j :: 0 <= j <= i ==> Acyclic(states[j].heap)
  }

  ghost predicate AlwaysHarmless(states: seq<State>, ops: seq<Op>, i: nat)
    requires i <= |ops| && i <= |states|
  {
    forall j :: 0 <= j < i ==> Harmless(states[j], ops[j])
  }

  lemma RunStepExactly(states: seq<State>, ops: seq<Op>, k: nat)
    requires Run(states, ops) && k < |ops| && Acyclic(states[k].heap)
    ensures Acyclic(states[k + 1].heap) <==> Harmless(states[k], ops[k])
  {
    RunKeepsInv(states, ops, k);
    StepKeepsAcyclicExactly(states[k], ops[k]);
  }

  lemma OneMore(states: seq<State>, ops: seq<Op>, k: nat)
    requires k < |ops| && k + 1 < |states|
    ensures AlwaysAcyclic(states, k + 1) <==> AlwaysAcyclic(states, k) && Acyclic(states[k + 1].heap)
    ensures AlwaysHarmless(states, ops, k + 1) <==> AlwaysHarmless(states, ops, k) && Harmless(states[k], ops[k])
    ensures AlwaysAcyclic(states, k) ==> Acyclic(states[k].heap)
  {
  }

  /** In every run the heap has been acyclic all along exactly if every call so far was harmless. */
  lemma {:induction false} RunIsAcyclicExactly(states: seq<State>, ops: seq<Op>, i: nat)
    requires Run(states, ops) && i < |states|
    ensures AlwaysAcyclic(states, i) <==> AlwaysHarmless(states, ops, i)
  {
    if i == 0 {
      EmptyIsAcyclic();
    } else {
      RunIsAcyclicExactly(states, ops, i - 1);
      OneMore(states, ops, i - 1);
      if AlwaysAcyclic(states, i - 1) {
        RunStepExactly(states, ops, i - 1);
      }
    }
  }

  /** In every run, once the last caller's reference is dropped, all items are freed if and only if the heap is acyclic. */
  lemma RunEndsEmptyExactly(states: seq<State>, ops: seq<Op>, i: nat)
    requires Run(states, ops) && i < |states| && states[i].roots == multiset{}
    ensures (forall x :: 0 <= x < |states[i].heap| ==> states[i].heap[x].Freed?) <==> Acyclic(states[i].heap)
  {
    var h := states[i].heap;
    if Acyclic(h) {
      forall x | 0 <= x < |h|
        ensures h[x].Freed?
      {
        RunEndsEmpty(states, ops, i, x);
      }
    }
    if forall x :: 0 <= x < |h| ==> h[x].Freed? {
      EmptyIsAcyclic();
      SameReferencesAcyclic([], h);
    }
  }

  /** A run of harmless calls leaves nothing behind once the last caller's reference is dropped. */
  lemma HarmlessRunEndsEmpty(states: seq<State>, ops: seq<Op>, i: nat, x: Addr)
    requires Run(states, ops) && i < |states| && states[i].roots == multiset{} && x < |states[i].heap|
    requires AlwaysHarmless(states, ops, i)
    ensures states[i].heap[x].Freed?
  {
    RunIsAcyclicExactly(states, ops, i);
    assert Acyclic(states[i].heap);
    RunEndsEmptyExactly(states, ops, i);
  }
}
