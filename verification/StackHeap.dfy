/**
 * Neo VM stack items as reference-counted heap objects: `src/protocol/stack_item.c`.
 *
 * An address is the index of an allocation; freed cells stay behind as `Freed`.
 */
module StackHeap {
  import opened Prelude
  import StackValues

  type Addr = nat

  /** A leaf holds its contents, a sequence is an array or a struct. */
  datatype Kind = Leaf(atom: StackValues.Item) | Sequence(isStruct: bool) | Mapping

  /** What a leaf can hold. */
  predicate Atomic(a: StackValues.Item) { !a.Array? && !a.Struct? && !a.Map? }

  /**
   * A live item: its count, and the references it holds in the order in which they are released.
   * A `Sequence` (array or struct) holds its items, a `Mapping` a key and a value for each entry in turn.
   */
  datatype Cell = Freed | Live(count: nat, kind: Kind, refs: seq<Addr>, capacity: nat)

  type Heap = seq<Cell>

  function RefsOf(c: Cell): seq<Addr> { if c.Live? then c.refs else [] }

  function Occurrences(c: Cell, x: Addr): nat { multiset(RefsOf(c))[x] }

  function OccurrencesOf(x: Addr): Cell -> int { (c: Cell) => Occurrences(c, x) }

  /** How often `x` is referred to from the cells of `h`. */
  ghost function InDegree(h: Heap, x: Addr): int { Sum(h, OccurrencesOf(x)) }

  /** The heap without the references held by the cells in `busy`. */
  ghost function Shade(h: Heap, busy: set<Addr>): (s: Heap)
    ensures |s| == |h|
    ensures forall i :: 0 <= i < |h| ==> s[i] == ShadeCell(h[i], i in busy)
  {
    seq(|h|, i requires 0 <= i < |h| => ShadeCell(h[i], i in busy))
  }

  function ShadeCell(c: Cell, hidden: bool): Cell { if hidden && c.Live? then c.(refs := []) else c }

  /** All references to `x`: those held outside, and those in cells that are not busy. */
  ghost function References(h: Heap, busy: set<Addr>, outside: multiset<Addr>, x: Addr): int {
    outside[x] + InDegree(Shade(h, busy), x)
  }

  /**
   * The counting invariant: every live item's count is the number of references to it, which is positive, and
   * nothing refers to a freed cell or to an address never allocated.
   */
  ghost predicate Counted(h: Heap, busy: set<Addr>, outside: multiset<Addr>) {
    forall x: Addr :: CountedAt(h, busy, outside, x)
  }

  ghost predicate CountedAt(h: Heap, busy: set<Addr>, outside: multiset<Addr>, x: Addr) {
    if x < |h| && h[x].Live?
    then h[x].count > 0 && References(h, busy, outside, x) == h[x].count
    else References(h, busy, outside, x) == 0
  }

  lemma ReferencesUpdate(h: Heap, busy: set<Addr>, outside: multiset<Addr>, x: Addr, c: Cell, y: Addr)
    requires x < |h|
    ensures References(h[x := c], busy, outside, y) == References(h, busy, outside, y)
         - Occurrences(ShadeCell(h[x], x in busy), y) + Occurrences(ShadeCell(c, x in busy), y)
  {
    assert Shade(h[x := c], busy) == Shade(h, busy)[x := ShadeCell(c, x in busy)];
    SumUpdate(Shade(h, busy), x, ShadeCell(c, x in busy), OccurrencesOf(y));
  }

  function Weight(c: Cell): int { if c.Live? then c.count else 0 }

  /** The sum of all counts, which every released reference lowers. */
  function Total(h: Heap): (n: nat) {
    SumNonNegative(h, Weight);
    Sum(h, Weight)
  }

  /**
   * Releases the references in `work` from left to right, each with everything it frees before the next:
   * `stack_item_unref`, with its recursion over a freed item's references made explicit.
   */
  function Release(h: Heap, work: seq<Addr>): Heap
    decreases Total(h), |work|
  {
    if work == [] then h
    else
      var x, rest := work[0], work[1..];
      if x >= |h| || h[x].Freed? || h[x].count == 0 then Release(h, rest)
      else if h[x].count > 1 then
        TotalDrops(h, x, h[x].(count := h[x].count - 1));
        Release(Dropped(h, x), rest)
      else
        TotalDrops(h, x, Freed);
        Release(FreedAt(h, x), h[x].refs + rest)
  }

  lemma TotalDrops(h: Heap, x: Addr, c: Cell)
    requires x < |h|
    ensures Total(h[x := c]) == Total(h) - Weight(h[x]) + Weight(c)
  {
    SumUpdate(h, x, c, Weight);
  }

  // ----- Releasing keeps the counts -----------------------------------------------------------

  function Dropped(h: Heap, x: Addr): Heap
    requires x < |h| && h[x].Live? && h[x].count > 1
  {
    h[x := h[x].(count := h[x].count - 1)]
  }

  lemma DropOneReference(h: Heap, busy: set<Addr>, outside: multiset<Addr>, x: Addr)
    requires Counted(h, busy, outside) && x in outside && x < |h| && h[x].Live? && h[x].count > 1
    ensures Counted(Dropped(h, x), busy, outside - multiset{x})
  {
    forall y: Addr
      ensures CountedAt(Dropped(h, x), busy, outside - multiset{x}, y)
    {
      assert CountedAt(h, busy, outside, y);
      ReferencesUpdate(h, busy, outside - multiset{x}, x, h[x].(count := h[x].count - 1), y);
    }
  }

  lemma {:induction false} InDegreeNonNegative(h: Heap, x: Addr)
    ensures InDegree(h, x) >= 0
  {
    SumNonNegative(h, OccurrencesOf(x));
  }

  function FreedAt(h: Heap, x: Addr): Heap
    requires x < |h|
  {
    h[x := Freed]
  }

  lemma DropLastReference(h: Heap, busy: set<Addr>, outside: multiset<Addr>, x: Addr)
    requires Counted(h, busy, outside) && x in outside && x !in busy && x < |h| && h[x].Live? && h[x].count == 1
    ensures Counted(FreedAt(h, x), busy, outside - multiset{x} + multiset(h[x].refs))
  {
    var out' := outside - multiset{x} + multiset(h[x].refs);
    forall y: Addr
      ensures CountedAt(FreedAt(h, x), busy, out', y)
    {
      assert CountedAt(h, busy, outside, y);
      ReferencesUpdate(h, busy, out', x, Freed, y);
    }
  }

  lemma ReferencedIsLive(h: Heap, busy: set<Addr>, outside: multiset<Addr>, x: Addr)
    requires Counted(h, busy, outside) && x in outside
    ensures x < |h| && h[x].Live? && h[x].count >= outside[x]
  {
    InDegreeNonNegative(Shade(h, busy), x);
    assert CountedAt(h, busy, outside, x);
  }

  /** Releasing outside references keeps every count exact; busy items that stay referenced survive. */
  lemma {:induction false} ReleaseKeepsCounted(h: Heap, busy: set<Addr>, kept: multiset<Addr>, work: seq<Addr>)
    requires Counted(h, busy, kept + multiset(work))
    requires forall b :: b in busy ==> b in kept
    ensures Counted(Release(h, work), busy, kept)
    decreases Total(h), |work|
  {
    if work == [] {
      assert kept + multiset(work) == kept;
    } else {
      var x, rest := work[0], work[1..];
      assert work == [x] + rest;
      var outside := kept + multiset(work);
      assert outside - multiset{x} == kept + multiset(rest);
      ReferencedIsLive(h, busy, outside, x);
      if h[x].count > 1 {
        DropOneReference(h, busy, outside, x);
        TotalDrops(h, x, h[x].(count := h[x].count - 1));
        ReleaseKeepsCounted(Dropped(h, x), busy, kept, rest);
      } else {
        assert x !in busy;
        DropLastReference(h, busy, outside, x);
        TotalDrops(h, x, Freed);
        assert kept + multiset(h[x].refs + rest) == outside - multiset{x} + multiset(h[x].refs);
        ReleaseKeepsCounted(FreedAt(h, x), busy, kept, h[x].refs + rest);
      }
    }
  }

  /** The cell has been freed, or still holds the same references. */
  predicate Survives(before: Cell, after: Cell) {
    after.Freed? || (before.Live? && after.kind == before.kind && after.refs == before.refs
                     && after.capacity == before.capacity && after.count <= before.count)
  }

  lemma {:induction false} ReleaseKeepsShape(h: Heap, work: seq<Addr>)
    ensures |Release(h, work)| == |h|
    ensures forall y :: 0 <= y < |h| ==> Survives(h[y], Release(h, work)[y])
    decreases Total(h), |work|
  {
    if work != [] {
      var x, rest := work[0], work[1..];
      if x >= |h| || h[x].Freed? || h[x].count == 0 {
        ReleaseKeepsShape(h, rest);
      } else if h[x].count > 1 {
        TotalDrops(h, x, h[x].(count := h[x].count - 1));
        ReleaseKeepsShape(Dropped(h, x), rest);
      } else {
        TotalDrops(h, x, Freed);
        ReleaseKeepsShape(FreedAt(h, x), h[x].refs + rest);
      }
    }
  }

  lemma {:induction false} ReleaseConcat(h: Heap, a: seq<Addr>, b: seq<Addr>)
    ensures Release(h, a + b) == Release(Release(h, a), b)
    decreases Total(h), |a|
  {
    if a == [] {
      assert a + b == b;
    } else {
      var x, rest := a[0], a[1..];
      assert (a + b)[1..] == rest + b;
      if x >= |h| || h[x].Freed? || h[x].count == 0 {
        ReleaseConcat(h, rest, b);
      } else if h[x].count > 1 {
        TotalDrops(h, x, h[x].(count := h[x].count - 1));
        ReleaseConcat(Dropped(h, x), rest, b);
      } else {
        TotalDrops(h, x, Freed);
        assert h[x].refs + (rest + b) == (h[x].refs + rest) + b;
        ReleaseConcat(FreedAt(h, x), h[x].refs + rest, b);
      }
    }
  }

  // ----- Taking references --------------------------------------------------------------------

  function Retain(h: Heap, x: Addr): Heap
    requires x < |h| && h[x].Live?
  {
    h[x := h[x].(count := h[x].count + 1)]
  }

  lemma RetainKeepsCounted(h: Heap, busy: set<Addr>, outside: multiset<Addr>, x: Addr)
    requires Counted(h, busy, outside) && x < |h| && h[x].Live?
    ensures Counted(Retain(h, x), busy, outside + multiset{x})
  {
    forall y: Addr
      ensures CountedAt(Retain(h, x), busy, outside + multiset{x}, y)
    {
      assert CountedAt(h, busy, outside, y);
      ReferencesUpdate(h, busy, outside + multiset{x}, x, h[x].(count := h[x].count + 1), y);
    }
  }

  /** Counting a container's references as its own, or as held outside while it is busy, is the same. */
  lemma BusyIsOutside(h: Heap, outside: multiset<Addr>, m: Addr)
    requires m < |h| && h[m].Live?
    ensures Counted(h, {}, outside) <==> Counted(h, {m}, outside + multiset(h[m].refs))
  {
    forall y: Addr
      ensures CountedAt(h, {}, outside, y) <==> CountedAt(h, {m}, outside + multiset(h[m].refs), y)
    {
      assert Shade(h, {m}) == Shade(h, {})[m := ShadeCell(h[m], true)];
      SumUpdate(Shade(h, {}), m, ShadeCell(h[m], true), OccurrencesOf(y));
    }
    if Counted(h, {}, outside) {
      forall y: Addr ensures CountedAt(h, {m}, outside + multiset(h[m].refs), y) {
        assert CountedAt(h, {}, outside, y);
      }
    }
    if Counted(h, {m}, outside + multiset(h[m].refs)) {
      forall y: Addr ensures CountedAt(h, {}, outside, y) {
        assert CountedAt(h, {m}, outside + multiset(h[m].refs), y);
      }
    }
  }

  function Rewired(h: Heap, m: Addr, refs: seq<Addr>, capacity: nat): Heap
    requires m < |h| && h[m].Live?
  {
    h[m := h[m].(refs := refs, capacity := capacity)]
  }

  /** A busy container may change its references freely. */
  lemma RewireKeepsCounted(h: Heap, outside: multiset<Addr>, m: Addr, refs: seq<Addr>, capacity: nat)
    requires m < |h| && h[m].Live? && Counted(h, {m}, outside + multiset(refs))
    ensures Counted(Rewired(h, m, refs, capacity), {}, outside)
  {
    var h' := Rewired(h, m, refs, capacity);
    forall y: Addr
      ensures CountedAt(h', {m}, outside + multiset(refs), y)
    {
      assert CountedAt(h, {m}, outside + multiset(refs), y);
      ReferencesUpdate(h, {m}, outside + multiset(refs), m, h[m].(refs := refs, capacity := capacity), y);
    }
    BusyIsOutside(h', outside, m);
  }

  // ----- The operations -----------------------------------------------------------------------

  const DEFAULT_CAPACITY: nat := 16

  /** `roots` are the references that callers hold. */
  datatype State = State(heap: Heap, roots: multiset<Addr>)

  /**
   * `memory` says whether a needed enlargement is granted, and `hit` which entry the key search of
   * `stack_item_map_set` stopped at, if any.
   */
  datatype Op =
    | Create(kind: Kind, capacity: nat)
    | Ref(item: Addr)
    | Unref(item: Addr)
    | Add(container: Addr, item: Addr, memory: bool)
    | Put(container: Addr, key: Addr, value: Addr, hit: Option<nat>, memory: bool)

  /** Callers pass only items to which they hold a reference. */
  predicate Allowed(s: State, op: Op) {
    match op
    case Create(kind, _) => kind.Leaf? ==> Atomic(kind.atom)
    case Ref(x) => x in s.roots
    case Unref(x) => x in s.roots
    case Add(a, x, _) => a in s.roots && x in s.roots
    case Put(m, k, v, hit, _) =>
      && m in s.roots && k in s.roots && v in s.roots
      && (hit.Some? ==> m < |s.heap| && 2 * hit.value + 1 < |RefsOf(s.heap[m])|)
  }

  /** A container with room for `used` more references, the capacity doubled if it is full; None if memory is refused. */
  function Roomier(full: bool, capacity: nat, memory: bool): Option<nat> {
    if !full then Some(capacity) else if memory then Some(2 * capacity) else None
  }

  function AddItem(h: Heap, a: Addr, x: Addr, memory: bool): Heap
    requires a < |h| && h[a].Live? && x < |h| && h[x].Live?
  {
    var room := Roomier(|h[a].refs| >= h[a].capacity, h[a].capacity, memory);
    if !h[a].kind.Sequence? || room.None? then h
    else Rewired(Retain(h, x), a, h[a].refs + [x], room.value)
  }

  function AppendEntry(h: Heap, m: Addr, k: Addr, v: Addr, memory: bool): Heap
    requires m < |h| && h[m].Live? && k < |h| && h[k].Live? && v < |h| && h[v].Live?
  {
    var room := Roomier(|h[m].refs| >= 2 * h[m].capacity, h[m].capacity, memory);
    if room.None? then h
    else Rewired(Retain(Retain(h, k), v), m, h[m].refs + [k, v], room.value)
  }

  /** The old value is released before the new one is retained, as in the source. */
  function ReplaceValue(h: Heap, m: Addr, v: Addr, at: nat): Heap
    requires m < |h| && h[m].Live? && v < |h| && at < |h[m].refs|
  {
    var h1 := Release(h, [h[m].refs[at]]);
    ReleaseKeepsShape(h, [h[m].refs[at]]);
    if h1[v].Freed? || h1[m].Freed? then h1
    else Rewired(Retain(h1, v), m, h[m].refs[at := v], h[m].capacity)
  }

  predicate Owned(s: State, x: Addr) { x in s.roots && x < |s.heap| && s.heap[x].Live? }

  function Step(s: State, op: Op): State {
    match op
    case Create(kind, n) =>
      State(s.heap + [Live(1, kind, [], if n == 0 then DEFAULT_CAPACITY else n)], s.roots + multiset{|s.heap|})
    case Ref(x) => if Owned(s, x) then State(Retain(s.heap, x), s.roots + multiset{x}) else s
    case Unref(x) => State(Release(s.heap, [x]), s.roots - multiset{x})
    case Add(a, x, memory) =>
      if Owned(s, a) && Owned(s, x) then s.(heap := AddItem(s.heap, a, x, memory)) else s
    case Put(m, k, v, hit, memory) =>
      if !Owned(s, m) || !Owned(s, k) || !Owned(s, v) || s.heap[m].kind != Mapping then s
      else if hit.None? then s.(heap := AppendEntry(s.heap, m, k, v, memory))
      else if 2 * hit.value + 1 < |s.heap[m].refs|
      then s.(heap := ReplaceValue(s.heap, m, v, 2 * hit.value + 1))
      else s
  }

  /** A full container doubles its capacity if it is granted the memory, and no other call changes it. */
  lemma AddGrows(h: Heap, a: Addr, x: Addr, memory: bool)
    requires a < |h| && h[a].Live? && x < |h| && h[x].Live? && h[a].kind.Sequence?
    ensures var c, c' := h[a], AddItem(h, a, x, memory)[a];
            && c'.Live?
            && c'.capacity == (if |c.refs| >= c.capacity && memory then c.capacity + c.capacity else c.capacity)
            && |c'.refs| == |c.refs| + (if |c.refs| >= c.capacity && !memory then 0 else 1)
  {
  }

  lemma AppendGrows(h: Heap, m: Addr, k: Addr, v: Addr, memory: bool)
    requires m < |h| && h[m].Live? && k < |h| && h[k].Live? && v < |h| && h[v].Live?
    ensures var c, c' := h[m], AppendEntry(h, m, k, v, memory)[m];
            && c'.Live?
            && c'.capacity == (if |c.refs| >= 2 * c.capacity && memory then c.capacity + c.capacity else c.capacity)
            && |c'.refs| == |c.refs| + (if |c.refs| >= 2 * c.capacity && !memory then 0 else 2)
  {
  }

  /** Containers stay within their capacity, and maps hold whole entries. */
  predicate Fits(c: Cell) {
    c.Live? ==>
      && c.capacity > 0
      && (c.kind.Leaf? ==> c.refs == [] && Atomic(c.kind.atom))
      && (c.kind.Sequence? ==> |c.refs| <= c.capacity)
      && (c.kind == Mapping ==> |c.refs| % 2 == 0 && |c.refs| <= 2 * c.capacity)
  }

  ghost predicate Inv(s: State) {
    Counted(s.heap, {}, s.roots) && AllFit(s.heap)
  }

  /** A new item is empty, has one reference, which its creator holds, and room for 16 if no capacity is asked for. */
  lemma CreatedAlone(s: State, kind: Kind, n: nat)
    ensures var s', x := Step(s, Create(kind, n)), |s.heap|;
            && s'.heap[..x] == s.heap && s'.heap[x..] == [Live(1, kind, [], if n == 0 then 16 else n)]
            && s'.roots == s.roots + multiset{x}
  {
  }

  lemma CreateKeepsCounted(h: Heap, outside: multiset<Addr>, c: Cell)
    requires Counted(h, {}, outside) && c.Live? && c.count == 1 && c.refs == []
    ensures Counted(h + [c], {}, outside + multiset{|h|})
  {
    forall y: Addr
      ensures CountedAt(h + [c], {}, outside + multiset{|h|}, y)
    {
      assert CountedAt(h, {}, outside, y);
      assert Shade(h + [c], {}) == Shade(h, {}) + [c];
      SumConcat(Shade(h, {}), [c], OccurrencesOf(y));
      InDegreeNonNegative(Shade(h, {}), y);
      assert [c][1..] == [];
    }
  }

  lemma AddKeepsCounted(h: Heap, roots: multiset<Addr>, a: Addr, x: Addr, memory: bool)
    requires Counted(h, {}, roots) && a < |h| && h[a].Live? && x < |h| && h[x].Live?
    ensures Counted(AddItem(h, a, x, memory), {}, roots)
  {
    BusyIsOutside(h, roots, a);
    RetainKeepsCounted(h, {a}, roots + multiset(h[a].refs), x);
    assert roots + multiset(h[a].refs) + multiset{x} == roots + multiset(h[a].refs + [x]);
    var room := Roomier(|h[a].refs| >= h[a].capacity, h[a].capacity, memory);
    if h[a].kind.Sequence? && room.Some? {
      RewireKeepsCounted(Retain(h, x), roots, a, h[a].refs + [x], room.value);
    }
  }

  lemma AppendKeepsCounted(h: Heap, roots: multiset<Addr>, m: Addr, k: Addr, v: Addr, memory: bool)
    requires Counted(h, {}, roots) && m < |h| && h[m].Live? && k < |h| && h[k].Live? && v < |h| && h[v].Live?
    ensures Counted(AppendEntry(h, m, k, v, memory), {}, roots)
  {
    var out := roots + multiset(h[m].refs);
    BusyIsOutside(h, roots, m);
    RetainKeepsCounted(h, {m}, out, k);
    RetainKeepsCounted(Retain(h, k), {m}, out + multiset{k}, v);
    assert out + multiset{k} + multiset{v} == roots + multiset(h[m].refs + [k, v]);
    var room := Roomier(|h[m].refs| >= 2 * h[m].capacity, h[m].capacity, memory);
    if room.Some? {
      RewireKeepsCounted(Retain(Retain(h, k), v), roots, m, h[m].refs + [k, v], room.value);
    }
  }

  lemma SwapReference(roots: multiset<Addr>, refs: seq<Addr>, at: nat, v: Addr)
    requires at < |refs|
    ensures roots + multiset(refs) - multiset{refs[at]} + multiset{v} == roots + multiset(refs[at := v])
  {
    assert refs == refs[..at] + [refs[at]] + refs[at + 1..];
    assert refs[at := v] == refs[..at] + [v] + refs[at + 1..];
  }

  lemma ReplaceKeepsCounted(h: Heap, roots: multiset<Addr>, m: Addr, v: Addr, at: nat)
    requires Counted(h, {}, roots) && m in roots && v in roots
    requires m < |h| && h[m].Live? && v < |h| && at < |h[m].refs|
    ensures Counted(ReplaceValue(h, m, v, at), {}, roots)
  {
    var refs, old' := h[m].refs, h[m].refs[at];
    var kept := roots + multiset(refs) - multiset{old'};
    BusyIsOutside(h, roots, m);
    assert old' in multiset(refs);
    assert kept + multiset([old']) == roots + multiset(refs);
    ReleaseKeepsCounted(h, {m}, kept, [old']);
    ReleaseKeepsShape(h, [old']);
    var h1 := Release(h, [old']);
    ReferencedIsLive(h1, {m}, kept, m);
    ReferencedIsLive(h1, {m}, kept, v);
    RetainKeepsCounted(h1, {m}, kept, v);
    SwapReference(roots, refs, at, v);
    RewireKeepsCounted(Retain(h1, v), roots, m, refs[at := v], h[m].capacity);
  }

  lemma StepKeepsCounted(s: State, op: Op)
    requires Inv(s) && Allowed(s, op)
    ensures Counted(Step(s, op).heap, {}, Step(s, op).roots)
  {
    match op
    case Create(kind, n) =>
      CreateKeepsCounted(s.heap, s.roots, Live(1, kind, [], if n == 0 then DEFAULT_CAPACITY else n));
    case Ref(x) =>
      ReferencedIsLive(s.heap, {}, s.roots, x);
      RetainKeepsCounted(s.heap, {}, s.roots, x);
    case Unref(x) =>
      assert s.roots - multiset{x} + multiset([x]) == s.roots;
      ReleaseKeepsCounted(s.heap, {}, s.roots - multiset{x}, [x]);
    case Add(a, x, memory) =>
      ReferencedIsLive(s.heap, {}, s.roots, a);
      ReferencedIsLive(s.heap, {}, s.roots, x);
      AddKeepsCounted(s.heap, s.roots, a, x, memory);
    case Put(m, k, v, hit, memory) =>
      ReferencedIsLive(s.heap, {}, s.roots, m);
      ReferencedIsLive(s.heap, {}, s.roots, k);
      ReferencedIsLive(s.heap, {}, s.roots, v);
      AppendKeepsCounted(s.heap, s.roots, m, k, v, memory);
      if hit.Some? && s.heap[m].kind == Mapping {
        ReplaceKeepsCounted(s.heap, s.roots, m, v, 2 * hit.value + 1);
      }
  }

  ghost predicate AllFit(h: Heap) {
    forall x :: 0 <= x < |h| ==> Fits(h[x])
  }

  lemma AddKeepsFits(h: Heap, a: Addr, x: Addr, memory: bool)
    requires a < |h| && h[a].Live? && x < |h| && h[x].Live? && AllFit(h)
    ensures AllFit(AddItem(h, a, x, memory))
  {
    assert AllFit(Retain(h, x));
  }

  lemma AppendKeepsFits(h: Heap, m: Addr, k: Addr, v: Addr, memory: bool)
    requires m < |h| && h[m].Live? && h[m].kind == Mapping && k < |h| && h[k].Live? && v < |h| && h[v].Live?
    requires AllFit(h)
    ensures AllFit(AppendEntry(h, m, k, v, memory))
  {
    assert AllFit(Retain(h, k));
    assert AllFit(Retain(Retain(h, k), v));
  }

  lemma ReleaseKeepsFits(h: Heap, work: seq<Addr>)
    requires AllFit(h)
    ensures AllFit(Release(h, work))
  {
    ReleaseKeepsShape(h, work);
  }

  lemma ReplaceKeepsFits(h: Heap, m: Addr, v: Addr, at: nat)
    requires m < |h| && h[m].Live? && v < |h| && at < |h[m].refs| && AllFit(h)
    ensures AllFit(ReplaceValue(h, m, v, at))
  {
    ReleaseKeepsShape(h, [h[m].refs[at]]);
    ReleaseKeepsFits(h, [h[m].refs[at]]);
    var h1 := Release(h, [h[m].refs[at]]);
    assert Survives(h[m], h1[m]);
    if h1[v].Live? && h1[m].Live? {
      assert AllFit(Retain(h1, v));
    }
  }

  lemma StepKeepsFits(s: State, op: Op)
    requires Inv(s) && Allowed(s, op)
    ensures AllFit(Step(s, op).heap)
  {
    match op
    case Create(_, _) =>
    case Ref(y) =>
    case Unref(y) => ReleaseKeepsFits(s.heap, [y]);
    case Add(a, y, memory) =>
      if Owned(s, a) && Owned(s, y) {
        AddKeepsFits(s.heap, a, y, memory);
      }
    case Put(m, k, v, hit, memory) =>
      if Owned(s, m) && Owned(s, k) && Owned(s, v) && s.heap[m].kind == Mapping {
        if hit.None? {
          AppendKeepsFits(s.heap, m, k, v, memory);
        } else {
          ReplaceKeepsFits(s.heap, m, v, 2 * hit.value + 1);
        }
      }
  }

  lemma StepKeepsInv(s: State, op: Op)
    requires Inv(s) && Allowed(s, op)
    ensures Inv(Step(s, op))
  {
    StepKeepsCounted(s, op);
    StepKeepsFits(s, op);
  }

  /** The states of a run from the empty heap. */
  ghost predicate Run(states: seq<State>, ops: seq<Op>) {
    && |states| == |ops| + 1
    && states[0] == State([], multiset{})
    && forall i {:trigger ops[i]} :: 0 <= i < |ops| ==> Allowed(states[i], ops[i]) && states[i + 1] == Step(states[i], ops[i])
  }

  lemma RunGoesOn(states: seq<State>, ops: seq<Op>, op: Op, s: State)
    requires Run(states, ops) && Allowed(states[|ops|], op) && s == Step(states[|ops|], op)
    ensures Run(states + [s], ops + [op])
  {
  }

  lemma {:induction false} RunKeepsInv(states: seq<State>, ops: seq<Op>, i: nat)
    requires Run(states, ops) && i < |states|
    ensures Inv(states[i])
  {
    if i > 0 {
      RunKeepsInv(states, ops, i - 1);
      StepKeepsInv(states[i - 1], ops[i - 1]);
    }
  }

  // ----- Reachability -------------------------------------------------------------------------

  /** `p` leads from a caller-held reference, through live containers, to its last element. */
  ghost predicate Path(h: Heap, roots: multiset<Addr>, p: seq<Addr>)
    decreases |p|
  {
    && p != []
    && (if |p| == 1 then p[0] in roots
        else Path(h, roots, p[..|p| - 1]) && p[|p| - 2] < |h| && p[|p| - 1] in RefsOf(h[p[|p| - 2]]))
  }

  ghost predicate Reachable(h: Heap, roots: multiset<Addr>, x: Addr) {
    exists p :: Path(h, roots, p) && p[|p| - 1] == x
  }

  lemma ReferredIsCounted(h: Heap, z: Addr, x: Addr)
    requires z < |h| && x in RefsOf(h[z])
    ensures InDegree(Shade(h, {}), x) > 0
  {
    SumRemove(Shade(h, {}), z, OccurrencesOf(x));
    SumNonNegative(Shade(h, {})[..z] + Shade(h, {})[z + 1..], OccurrencesOf(x));
    assert x in multiset(RefsOf(h[z]));
  }

  /** No live container refers to a freed item. */
  lemma ReferredIsLive(h: Heap, roots: multiset<Addr>, z: Addr, x: Addr)
    requires Counted(h, {}, roots) && z < |h| && x in RefsOf(h[z])
    ensures x < |h| && h[x].Live?
  {
    ReferredIsCounted(h, z, x);
    assert CountedAt(h, {}, roots, x);
  }

  /** What callers can reach is never freed. */
  lemma {:induction false} PathIsLive(h: Heap, roots: multiset<Addr>, p: seq<Addr>)
    requires Counted(h, {}, roots) && Path(h, roots, p)
    ensures p[|p| - 1] < |h| && h[p[|p| - 1]].Live?
  {
    if |p| == 1 {
      ReferencedIsLive(h, {}, roots, p[0]);
    } else {
      ReferredIsLive(h, roots, p[|p| - 2], p[|p| - 1]);
    }
  }

  /** References always lead to items of lower rank, so there is no cycle. */
  ghost predicate Ranked(h: Heap, rank: Addr -> nat, bound: nat) {
    forall x, y :: 0 <= x < |h| && y in RefsOf(h[x]) ==> rank(y) < rank(x) <= bound
  }

  ghost predicate Acyclic(h: Heap) {
    exists rank: Addr -> nat, bound: nat :: Ranked(h, rank, bound)
  }

  lemma {:induction false} FindReferrer(cells: Heap, x: Addr) returns (z: nat)
    requires Sum(cells, OccurrencesOf(x)) > 0
    ensures z < |cells| && x in RefsOf(cells[z])
  {
    if Occurrences(cells[0], x) > 0 {
      z := 0;
    } else {
      z := FindReferrer(cells[1..], x);
      z := z + 1;
    }
  }

  /** Climbing from a live item through its referrers ends at a caller-held reference. */
  lemma {:induction false} LiveIsReachable(h: Heap, roots: multiset<Addr>, rank: Addr -> nat, bound: nat, x: Addr)
    requires Counted(h, {}, roots) && Ranked(h, rank, bound) && x < |h| && h[x].Live?
    ensures Reachable(h, roots, x)
    decreases if rank(x) <= bound then bound - rank(x) + 1 else 0
  {
    assert CountedAt(h, {}, roots, x);
    if x in roots {
      RootIsReachable(h, roots, x);
    } else {
      var z := FindReferrer(Shade(h, {}), x);
      LiveIsReachable(h, roots, rank, bound, z);
      ReachableExtends(h, roots, z, x);
    }
  }

  lemma ReachableExtends(h: Heap, roots: multiset<Addr>, z: Addr, x: Addr)
    requires Reachable(h, roots, z) && z < |h| && x in RefsOf(h[z])
    ensures Reachable(h, roots, x)
  {
    var p :| Path(h, roots, p) && p[|p| - 1] == z;
    assert (p + [x])[..|p|] == p;
    assert Path(h, roots, p + [x]) && (p + [x])[|p + [x]| - 1] == x;
  }

  lemma RootIsReachable(h: Heap, roots: multiset<Addr>, x: Addr)
    requires x in roots
    ensures Reachable(h, roots, x)
  {
    assert Path(h, roots, [x]) && [x][|[x]| - 1] == x;
  }

  /** On an acyclic heap the live items are exactly those that callers can reach. */
  lemma LiveExactlyReachable(h: Heap, roots: multiset<Addr>, x: Addr)
    requires Counted(h, {}, roots) && Acyclic(h)
    ensures x < |h| && h[x].Live? <==> Reachable(h, roots, x)
  {
    if x < |h| && h[x].Live? {
      var rank: Addr -> nat, bound: nat :| Ranked(h, rank, bound);
      LiveIsReachable(h, roots, rank, bound, x);
    }
    if Reachable(h, roots, x) {
      var p :| Path(h, roots, p) && p[|p| - 1] == x;
      PathIsLive(h, roots, p);
    }
  }

  /** Following old references, or the surviving ones, reaches the same items. */
  lemma {:induction false} PathSurvives(h: Heap, h': Heap, roots: multiset<Addr>, p: seq<Addr>)
    requires |h'| == |h| && forall y :: 0 <= y < |h| ==> Survives(h[y], h'[y])
    requires Counted(h', {}, roots)
    ensures Path(h, roots, p) <==> Path(h', roots, p)
    decreases |p|
  {
    if |p| > 1 {
      PathSurvives(h, h', roots, p[..|p| - 1]);
      if Path(h', roots, p[..|p| - 1]) {
        PathIsLive(h', roots, p[..|p| - 1]);
      }
    }
  }

  lemma SurvivorsAcyclic(h: Heap, h': Heap)
    requires |h'| == |h| && forall y :: 0 <= y < |h| ==> Survives(h[y], h'[y])
    requires Acyclic(h)
    ensures Acyclic(h')
  {
    var rank: Addr -> nat, bound: nat :| Ranked(h, rank, bound);
    forall x, y | 0 <= x < |h'| && y in RefsOf(h'[x])
      ensures rank(y) < rank(x) <= bound
    {
      assert Survives(h[x], h'[x]);
      assert y in RefsOf(h[x]);
    }
    assert Ranked(h', rank, bound);
  }

  /** Releasing a caller's reference frees exactly what callers can no longer reach. */
  lemma ReleaseFreesUnreachable(s: State, x: Addr, y: Addr)
    requires Inv(s) && x in s.roots && Acyclic(s.heap) && y < |s.heap|
    ensures var s' := Step(s, Unref(x));
            && |s'.heap| == |s.heap|
            && (s'.heap[y].Live? <==> Reachable(s.heap, s'.roots, y))
            && (s'.heap[y].Live? ==> s'.heap[y].refs == RefsOf(s.heap[y]))
  {
    var s' := Step(s, Unref(x));
    StepKeepsInv(s, Unref(x));
    ReleaseKeepsShape(s.heap, [x]);
    SurvivorsAcyclic(s.heap, s'.heap);
    LiveExactlyReachable(s'.heap, s'.roots, y);
    forall p: seq<Addr> ensures Path(s.heap, s'.roots, p) <==> Path(s'.heap, s'.roots, p) {
      PathSurvives(s.heap, s'.heap, s'.roots, p);
    }
  }

  /** In every run each live item's count is the callers' references plus its occurrences in live containers. */
  lemma RunCountsExactly(states: seq<State>, ops: seq<Op>, i: nat, x: Addr)
    requires Run(states, ops) && i < |states| && x < |states[i].heap| && states[i].heap[x].Live?
    ensures states[i].heap[x].count == states[i].roots[x] + InDegree(states[i].heap, x)
  {
    RunKeepsInv(states, ops, i);
    assert CountedAt(states[i].heap, {}, states[i].roots, x);
    assert Shade(states[i].heap, {}) == states[i].heap;
  }

  /** In every run no live container refers to a freed item. */
  lemma RunHasNoDanglingReference(states: seq<State>, ops: seq<Op>, i: nat, z: Addr, x: Addr)
    requires Run(states, ops) && i < |states| && z < |states[i].heap| && x in RefsOf(states[i].heap[z])
    ensures x < |states[i].heap| && states[i].heap[x].Live?
  {
    RunKeepsInv(states, ops, i);
    ReferredIsLive(states[i].heap, states[i].roots, z, x);
  }

  /** In every run, once the last caller's reference is dropped, an acyclic heap is empty. */
  lemma RunEndsEmpty(states: seq<State>, ops: seq<Op>, i: nat, x: Addr)
    requires Run(states, ops) && i < |states| && Acyclic(states[i].heap) && states[i].roots == multiset{}
    requires x < |states[i].heap|
    ensures states[i].heap[x].Freed?
  {
    var s := states[i];
    RunKeepsInv(states, ops, i);
    LiveExactlyReachable(s.heap, s.roots, x);
    if Reachable(s.heap, s.roots, x) {
      var p :| Path(s.heap, s.roots, p) && p[|p| - 1] == x;
      PathStartsAtRoot(s.heap, s.roots, p);
    }
  }

  lemma {:induction false} PathStartsAtRoot(h: Heap, roots: multiset<Addr>, p: seq<Addr>)
    requires Path(h, roots, p)
    ensures p[0] in roots
  {
    if |p| > 1 {
      PathStartsAtRoot(h, roots, p[..|p| - 1]);
    }
  }

  const LOOP: seq<Op> := [Create(Sequence(false), 0), Add(0, 0, true), Unref(0)]

  lemma LoopSteps()
    ensures Step(State([], multiset{}), LOOP[0]) == State([Live(1, Sequence(false), [], 16)], multiset{0})
    ensures Step(State([Live(1, Sequence(false), [], 16)], multiset{0}), LOOP[1])
         == State([Live(2, Sequence(false), [0], 16)], multiset{0})
  {
    var h := [Live(1, Sequence(false), [], 16)];
    assert Retain(h, 0) == [Live(2, Sequence(false), [], 16)];
    assert h[0].refs + [0] == [0];
  }

  lemma LoopStays()
    ensures Step(State([Live(2, Sequence(false), [0], 16)], multiset{0}), LOOP[2])
         == State([Live(1, Sequence(false), [0], 16)], multiset{})
  {
    var h := [Live(2, Sequence(false), [0], 16)];
    assert [0][1..] == [];
    assert Dropped(h, 0) == [Live(1, Sequence(false), [0], 16)];
  }

  /** An array that contains itself outlives its last caller: acyclicity is needed. */
  lemma SelfReferenceLeaks() returns (states: seq<State>)
    ensures Run(states, LOOP) && states[|LOOP|].roots == multiset{}
    ensures states[|LOOP|].heap == [Live(1, Sequence(false), [0], 16)]
  {
    var s0, s1 := State([], multiset{}), State([Live(1, Sequence(false), [], 16)], multiset{0});
    var s2, s3 := State([Live(2, Sequence(false), [0], 16)], multiset{0}), State([Live(1, Sequence(false), [0], 16)], multiset{});
    LoopSteps();
    LoopStays();
    states := [s0, s1, s2, s3];
  }
}
