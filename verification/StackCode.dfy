/** The operations of `src/protocol/stack_item.c` on a mutable heap, proved against the steps of `StackHeap`. */
module StackCode {
  import opened Prelude
  import opened StackHeap
  import opened StackCycles
  import opened StackUnfold
  import opened StackValues

  /** The heap with the items being torn down already counted as freed. */
  ghost function Mask(h: Heap, dying: set<Addr>): (m: Heap)
    ensures |m| == |h|
    ensures forall i :: 0 <= i < |h| ==> m[i] == if i in dying then Freed else h[i]
  {
    seq(|h|, i requires 0 <= i < |h| => if i in dying then Freed else h[i])
  }

  lemma {:induction false} ReleaseLowersTotal(h: Heap, work: seq<Addr>)
    ensures Total(Release(h, work)) <= Total(h)
    decreases Total(h), |work|
  {
    if work != [] {
      var x, rest := work[0], work[1..];
      if x >= |h| || h[x].Freed? || h[x].count == 0 {
        ReleaseLowersTotal(h, rest);
      } else if h[x].count > 1 {
        TotalDrops(h, x, h[x].(count := h[x].count - 1));
        ReleaseLowersTotal(Dropped(h, x), rest);
      } else {
        TotalDrops(h, x, Freed);
        ReleaseLowersTotal(FreedAt(h, x), h[x].refs + rest);
      }
    }
  }

  /** What an addition to the container answers. */
  function AddAnswer(c: Cell, memory: bool): Result<()>
    requires c.Live?
  {
    if !c.kind.Sequence? then Err(InvalidType)
    else if |c.refs| >= c.capacity && !memory then Err(OutOfMemory)
    else Ok(())
  }

  predicate IsStruct(c: Cell) { c.Live? && c.kind.Sequence? && c.kind.isStruct }

  class ItemHeap {
    var cells: Heap
    ghost var roots: multiset<Addr>

    ghost function Abstract(): State
      reads this
    {
      State(cells, roots)
    }

    constructor ()
      ensures Abstract() == State([], multiset{}) && Inv(Abstract())
    {
      cells := [];
      roots := multiset{};
    }

    /**
     * `stack_item_unref`: counts down, and at zero unrefs every reference before the item itself is freed.
     * The items in `dying` are those whose teardown is in progress further up the call stack.
     */
    method UnrefItem(x: Addr, ghost dying: set<Addr>, ghost busy: set<Addr>, ghost kept: multiset<Addr>)
      requires Counted(Mask(cells, dying), busy, kept + multiset{x})
      requires forall b :: b in busy ==> b in kept
      modifies this`cells
      ensures |cells| == |old(cells)|
      ensures Mask(cells, dying) == Release(old(Mask(cells, dying)), [x])
      ensures forall d :: d in dying && d < |cells| ==> cells[d] == old(cells)[d]
      decreases Total(Mask(cells, dying)), 0
    {
      ghost var m := Mask(cells, dying);
      ReferencedIsLive(m, busy, kept + multiset{x}, x);
      assert [x][1..] == [];
      TotalDrops(m, x, m[x].(count := m[x].count - 1));
      TotalDrops(m, x, Freed);
      var count := cells[x].count - 1;
      cells := cells[x := cells[x].(count := count)];
      if count > 0 {
        assert Mask(cells, dying) == Dropped(m, x);
        return;
      }
      UnrefAll(x, dying, busy, kept, m);
      cells := cells[x := Freed];
      assert Mask(cells, dying) == Release(FreedAt(m, x), m[x].refs);
      assert m[x].refs + [] == m[x].refs;
    }

    /** The loop over the references of an item that is being torn down. */
    method UnrefAll(x: Addr, ghost dying: set<Addr>, ghost busy: set<Addr>, ghost kept: multiset<Addr>, ghost m: Heap)
      requires Counted(m, busy, kept + multiset{x}) && forall b :: b in busy ==> b in kept
      requires x < |cells| == |m| && x !in dying && m[x].Live? && m[x].count == 1
      requires cells[x].Live? && cells[x].refs == m[x].refs
      requires Mask(cells, dying + {x}) == FreedAt(m, x)
      modifies this`cells
      ensures |cells| == |old(cells)|
      ensures Mask(cells, dying + {x}) == Release(FreedAt(m, x), m[x].refs)
      ensures forall d :: d in dying + {x} && d < |cells| ==> cells[d] == old(cells)[d]
      decreases Total(FreedAt(m, x)), 1
    {
      var refs := cells[x].refs;
      ghost var freed := FreedAt(m, x);
      ghost var start := cells;
      ReferencedIsLive(m, busy, kept + multiset{x}, x);
      DropLastReference(m, busy, kept + multiset{x}, x);
      assert kept + multiset{x} - multiset{x} + multiset(refs) == kept + multiset(refs);
      assert refs[..0] == [] && refs[0..] == refs;
      for i := 0 to |refs|
        invariant |cells| == |start|
        invariant Mask(cells, dying + {x}) == Release(freed, refs[..i])
        invariant forall d :: d in dying + {x} && d < |cells| ==> cells[d] == start[d]
      {
        ReleasePrefixCounted(freed, busy, kept, refs, i);
        ReleaseLowersTotal(freed, refs[..i]);
        ReleaseConcat(freed, refs[..i], [refs[i]]);
        assert refs[..i + 1] == refs[..i] + [refs[i]];
        UnrefItem(refs[i], dying + {x}, busy, kept + multiset(refs[i + 1..]));
      }
      assert refs[..|refs|] == refs;
    }

    method Unref(x: Addr)
      requires Inv(Abstract()) && x in roots
      modifies this
      ensures Inv(Abstract()) && Abstract() == Step(old(Abstract()), Op.Unref(x))
    {
      StepKeepsInv(Abstract(), Op.Unref(x));
      assert Mask(cells, {}) == cells;
      assert roots - multiset{x} + multiset{x} == roots;
      UnrefItem(x, {}, {}, roots - multiset{x});
      assert Mask(cells, {}) == cells;
      roots := roots - multiset{x};
    }

    method Ref(x: Addr)
      requires Inv(Abstract()) && x in roots
      modifies this
      ensures Inv(Abstract()) && Abstract() == Step(old(Abstract()), Op.Ref(x))
    {
      StepKeepsInv(Abstract(), Op.Ref(x));
      ReferencedIsLive(cells, {}, roots, x);
      cells := cells[x := cells[x].(count := cells[x].count + 1)];
      roots := roots + multiset{x};
    }

    method Create(kind: Kind, capacity: nat) returns (x: Addr)
      requires Inv(Abstract()) && (kind.Leaf? ==> Atomic(kind.atom))
      modifies this
      ensures Inv(Abstract()) && Abstract() == Step(old(Abstract()), Op.Create(kind, capacity))
      ensures x == |old(cells)|
    {
      StepKeepsInv(Abstract(), Op.Create(kind, capacity));
      x := |cells|;
      cells := cells + [Live(1, kind, [], if capacity == 0 then DEFAULT_CAPACITY else capacity)];
      roots := roots + multiset{x};
    }

    /**
     * `stack_item_array_add`. If the item does not lead to the container, a successful call makes the container spell
     * one item more, at the end.
     */
    method ArrayAdd(a: Addr, item: Addr, memory: bool, ghost xs: seq<Item>, ghost v: Item) returns (r: Result<()>)
      requires Inv(Abstract()) && a in roots && item in roots
      modifies this
      ensures Inv(Abstract()) && Abstract() == Step(old(Abstract()), Op.Add(a, item, memory))
      ensures a < |old(cells)| && old(cells)[a].Live?
      ensures r == AddAnswer(old(cells)[a], memory)
      ensures r.Ok? && old(Spells(cells, item, v) && !Leads(cells, item, a))
              && old(Spells(cells, a, Sequenced(IsStruct(cells[a]), xs))) ==>
                Spells(cells, a, Sequenced(IsStruct(old(cells)[a]), xs + [v]))
    {
      StepKeepsInv(Abstract(), Op.Add(a, item, memory));
      ReferencedIsLive(cells, {}, roots, a);
      if AddAnswer(cells[a], memory).Ok? && Spells(cells, item, v) && !Leads(cells, item, a)
        && Spells(cells, a, Sequenced(IsStruct(cells[a]), xs)) {
        AddRefines(Abstract(), a, item, memory, IsStruct(cells[a]), xs, v);
      }
      r := AppendItem(a, item, memory);
    }

    /** The type check, the enlargement, the retain and the store. */
    method AppendItem(a: Addr, item: Addr, memory: bool) returns (r: Result<()>)
      requires Inv(Abstract()) && a in roots && item in roots && a < |cells| && cells[a].Live?
      modifies this
      ensures Abstract() == Step(old(Abstract()), Op.Add(a, item, memory))
      ensures r == AddAnswer(old(cells)[a], memory)
    {
      ReferencedIsLive(cells, {}, roots, item);
      if !cells[a].kind.Sequence? {
        return Err(InvalidType);
      }
      var capacity := cells[a].capacity;
      if |cells[a].refs| >= capacity {
        if !memory {
          return Err(OutOfMemory);
        }
        capacity := 2 * capacity;
      }
      cells := cells[item := cells[item].(count := cells[item].count + 1)];
      cells := cells[a := cells[a].(refs := cells[a].refs + [item], capacity := capacity)];
      return Ok(());
    }

    /**
     * The key search, by `stack_item_equals`. The contents of the map and of the key are needed to show that it ends.
     */
    method FindEntry(m: Addr, key: Addr, ghost es: seq<Pair>, ghost k: Item) returns (hit: Option<nat>)
      requires Spells(cells, m, Map(es)) && Spells(cells, key, k)
      ensures hit == HeapHit(cells, m, key, es, k)
      ensures WellFormedEntries(es) && WellFormed(k) ==> hit == Hit(es, k)
    {
      HeapHitIs(cells, m, key, es, k);
      var i := Search(cells, cells[m].refs, key, es, k);
      SpellsCount(cells, cells[m].refs, es);
      hit := if i < |cells[m].refs| / 2 then Some(i) else None;
    }

    /**
     * `stack_item_map_set`. If the keys are pairwise unequal and neither the key nor the value leads to the map, a
     * successful call makes the map spell the updated entries.
     */
    method MapSet(m: Addr, key: Addr, value: Addr, memory: bool, ghost es: seq<Pair>, ghost k: Item, ghost v: Item)
      returns (r: Result<()>, ghost hit: Option<nat>)
      requires Inv(Abstract()) && m in roots && key in roots && value in roots
      requires m < |cells| && cells[m].Live? && cells[m].kind == Mapping ==>
                 Spells(cells, m, Map(es)) && Spells(cells, key, k)
      modifies this
      ensures Inv(Abstract())
      ensures m < |old(cells)| && old(cells)[m].Live?
      ensures Abstract() == Step(old(Abstract()), Op.Put(m, key, value, hit, memory))
      ensures var c := old(cells)[m];
              && (c.kind == Mapping && WellFormedEntries(es) && WellFormed(k) ==> hit == Hit(es, k))
              && r == if c.kind != Mapping then Err(InvalidType)
                      else if hit.None? && |c.refs| >= 2 * c.capacity && !memory then Err(OutOfMemory)
                      else Ok(())
      ensures r.Ok? && WellFormedEntries(es) && WellFormed(k) && old(Spells(cells, value, v))
              && old(!Leads(cells, key, m) && !Leads(cells, value, m)) ==>
                Spells(cells, m, Map(Set(es, k, v)))
    {
      ReferencedIsLive(cells, {}, roots, m);
      ReferencedIsLive(cells, {}, roots, key);
      ReferencedIsLive(cells, {}, roots, value);
      if cells[m].kind != Mapping {
        StepKeepsInv(Abstract(), Op.Put(m, key, value, None, memory));
        return Err(InvalidType), None;
      }
      var found := FindEntry(m, key, es, k);
      hit := found;
      SpellsCount(cells, cells[m].refs, es);
      ghost var op := Op.Put(m, key, value, hit, memory);
      StepKeepsInv(Abstract(), op);
      if hit == Hit(es, k) && Spells(cells, value, v) && Harmless(Abstract(), op) && (hit.None? ==> HasRoom(cells, m, memory)) {
        MapSetRefines(Abstract(), m, key, value, memory, es, k, v);
      }
      r := SetEntry(m, key, value, found, memory);
    }

    /** Replaces the value of the entry found, or appends an entry. */
    method SetEntry(m: Addr, key: Addr, value: Addr, found: Option<nat>, memory: bool) returns (r: Result<()>)
      requires Inv(Abstract()) && m in roots && key in roots && value in roots
      requires m < |cells| && cells[m].Live? && cells[m].kind == Mapping
      requires found.Some? ==> 2 * found.value + 1 < |cells[m].refs|
      modifies this
      ensures Abstract() == Step(old(Abstract()), Op.Put(m, key, value, found, memory))
      ensures var c := old(cells)[m];
              r == if found.None? && |c.refs| >= 2 * c.capacity && !memory then Err(OutOfMemory) else Ok(())
    {
      ReferencedIsLive(cells, {}, roots, key);
      ReferencedIsLive(cells, {}, roots, value);
      if found.Some? {
        ReplaceAt(m, value, 2 * found.value + 1);
        return Ok(());
      }
      var capacity := cells[m].capacity;
      if |cells[m].refs| >= 2 * capacity {
        if !memory {
          return Err(OutOfMemory);
        }
        capacity := 2 * capacity;
      }
      cells := cells[key := cells[key].(count := cells[key].count + 1)];
      cells := cells[value := cells[value].(count := cells[value].count + 1)];
      cells := cells[m := cells[m].(refs := cells[m].refs + [key, value], capacity := capacity)];
      return Ok(());
    }

    /** Replaces the value of an entry: the old value is unreffed first. */
    method ReplaceAt(m: Addr, v: Addr, at: nat)
      requires Counted(cells, {}, roots) && m in roots && v in roots
      requires m < |cells| && cells[m].Live? && v < |cells| && cells[v].Live? && at < |cells[m].refs|
      modifies this`cells
      ensures cells == ReplaceValue(old(cells), m, v, at)
    {
      ghost var h := cells;
      var value := cells[m].refs[at];
      ghost var kept := roots + multiset(cells[m].refs) - multiset{value};
      BusyIsOutside(cells, roots, m);
      assert value in multiset(cells[m].refs);
      assert kept + multiset{value} == roots + multiset(cells[m].refs) == kept + multiset([value]);
      ReleaseKeepsCounted(h, {m}, kept, [value]);
      ReleaseKeepsShape(h, [value]);
      assert Mask(cells, {}) == cells;
      UnrefItem(value, {}, {m}, kept);
      assert Mask(cells, {}) == cells;
      ReferencedIsLive(cells, {m}, kept, m);
      ReferencedIsLive(cells, {m}, kept, v);
      assert Survives(h[m], cells[m]);
      cells := cells[v := cells[v].(count := cells[v].count + 1)];
      cells := cells[m := cells[m].(refs := cells[m].refs[at := v])];
    }
  }

  /** Where the key search stops, as an entry or none. */
  ghost function HeapHit(h: Heap, m: Addr, key: Addr, es: seq<Pair>, k: Item): Option<nat>
    requires Spells(h, m, Map(es)) && Spells(h, key, k)
  {
    var i := HeapFind(h, h[m].refs, key, es, k);
    if i < |es| then Some(i) else None
  }

  lemma HeapHitIs(h: Heap, m: Addr, key: Addr, es: seq<Pair>, k: Item)
    requires Spells(h, m, Map(es)) && Spells(h, key, k)
    ensures WellFormedEntries(es) && WellFormed(k) ==> HeapHit(h, m, key, es, k) == Hit(es, k)
  {
    if WellFormedEntries(es) && WellFormed(k) {
      HeapFindIs(h, h[m].refs, key, es, k);
    }
  }

  /** The first `i` entries have other keys. */
  ghost predicate Searched(h: Heap, refs: seq<Addr>, key: Addr, es: seq<Pair>, k: Item, i: nat)
    requires SpellsEntries(h, refs, es) && Spells(h, key, k)
  {
    && i <= |es| && 2 * i <= |refs|
    && SpellsEntries(h, refs[2 * i..], es[i..])
    && HeapFind(h, refs, key, es, k) == i + HeapFind(h, refs[2 * i..], key, es[i..], k)
  }

  /** The loop of the key search. */
  method Search(h: Heap, refs: seq<Addr>, key: Addr, ghost es: seq<Pair>, ghost k: Item) returns (i: nat)
    requires SpellsEntries(h, refs, es) && Spells(h, key, k)
    ensures i == HeapFind(h, refs, key, es, k)
  {
    SpellsCount(h, refs, es);
    i := 0;
    assert refs[0..] == refs && es[0..] == es;
    while i < |refs| / 2
      invariant i <= |es| && Searched(h, refs, key, es, k, i)
    {
      FindStep(h, refs, key, es, k, i);
      if HeapEquals(h, refs[2 * i], key, es[i].key, k) {
        return;
      }
      i := i + 1;
    }
  }

  /** One turn of the key search. */
  lemma FindStep(h: Heap, refs: seq<Addr>, key: Addr, es: seq<Pair>, k: Item, i: nat)
    requires |refs| == 2 * |es| && i < |es| && SpellsEntries(h, refs[2 * i..], es[i..]) && Spells(h, key, k)
    ensures Spells(h, refs[2 * i], es[i].key) && SpellsEntries(h, refs[2 * (i + 1)..], es[i + 1..])
    ensures HeapFind(h, refs[2 * i..], key, es[i..], k)
         == if HeapEquals(h, refs[2 * i], key, es[i].key, k) then 0
            else 1 + HeapFind(h, refs[2 * (i + 1)..], key, es[i + 1..], k)
  {
    assert refs[2 * i..][2..] == refs[2 * (i + 1)..] && es[i..][1..] == es[i + 1..];
  }

  lemma ReleasePrefixCounted(h: Heap, busy: set<Addr>, kept: multiset<Addr>, refs: seq<Addr>, i: nat)
    requires Counted(h, busy, kept + multiset(refs)) && i < |refs|
    requires forall b :: b in busy ==> b in kept
    ensures Counted(Release(h, refs[..i]), busy, kept + multiset(refs[i + 1..]) + multiset{refs[i]})
  {
    assert refs == refs[..i] + [refs[i]] + refs[i + 1..];
    var rest := kept + multiset(refs[i + 1..]) + multiset{refs[i]};
    assert rest + multiset(refs[..i]) == kept + multiset(refs);
    ReleaseKeepsCounted(h, busy, rest, refs[..i]);
  }
}
