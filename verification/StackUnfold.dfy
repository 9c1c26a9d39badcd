/**
 * What the items of the heap mean: an item spells a value of `StackValues`. On items that spell one, the recursive
 * comparison of `src/protocol/stack_item.c` is equality of values, and `stack_item_map_set` updates the value.
 */
module StackUnfold {
  import opened Prelude
  import opened StackHeap
  import opened StackCycles
  import opened V = StackValues

  /** The item at `x` unfolds to `a`. */
  ghost predicate Spells(h: Heap, x: Addr, a: Item)
    decreases Size(a), 0
  {
    x < |h| && h[x].Live? &&
    match a
    case Array(xs) => h[x].kind == Sequence(false) && SpellsAll(h, h[x].refs, xs)
    case Struct(xs) => h[x].kind == Sequence(true) && SpellsAll(h, h[x].refs, xs)
    case Map(es) => h[x].kind == Mapping && SpellsEntries(h, h[x].refs, es)
    case _ => h[x].kind == Leaf(a)
  }

  ghost predicate SpellsAll(h: Heap, refs: seq<Addr>, xs: seq<Item>)
    decreases SizeAll(xs), 1, |xs|
  {
    if xs == [] then refs == []
    else refs != [] && Spells(h, refs[0], xs[0]) && SpellsAll(h, refs[1..], xs[1..])
  }

  ghost predicate SpellsEntries(h: Heap, refs: seq<Addr>, es: seq<Pair>)
    decreases SizeEntries(es), 1, |es|
  {
    if es == [] then refs == []
    else
      && |refs| >= 2
      && Spells(h, refs[0], es[0].key)
      && Spells(h, refs[1], es[0].value)
      && SpellsEntries(h, refs[2..], es[1..])
  }

  lemma {:induction false} SpellsEntry(h: Heap, refs: seq<Addr>, es: seq<Pair>, i: nat)
    requires SpellsEntries(h, refs, es) && i < |es|
    ensures |refs| == 2 * |es| && Spells(h, refs[2 * i], es[i].key) && Spells(h, refs[2 * i + 1], es[i].value)
    decreases |es|
  {
    SpellsCount(h, refs, es);
    if i > 0 {
      SpellsEntry(h, refs[2..], es[1..], i - 1);
    }
  }

  lemma {:induction false} SpellsCount(h: Heap, refs: seq<Addr>, es: seq<Pair>)
    requires SpellsEntries(h, refs, es)
    ensures |refs| == 2 * |es|
    decreases |es|
  {
    if es != [] {
      SpellsCount(h, refs[2..], es[1..]);
    }
  }

  lemma {:induction false} SpellsItems(h: Heap, refs: seq<Addr>, xs: seq<Item>)
    requires SpellsAll(h, refs, xs)
    ensures |refs| == |xs|
    decreases |xs|
  {
    if xs != [] {
      SpellsItems(h, refs[1..], xs[1..]);
    }
  }

  // ----- An item spells one value -------------------------------------------------------------

  lemma {:induction false} SpellsOne(h: Heap, x: Addr, a: Item, b: Item)
    requires Spells(h, x, a) && Spells(h, x, b)
    ensures a == b
    decreases Size(a), 0
  {
    match a
    case Array(xs) => if b.Array? { SpellsOneAll(h, h[x].refs, xs, b.items); }
    case Struct(xs) => if b.Struct? { SpellsOneAll(h, h[x].refs, xs, b.items); }
    case Map(es) => if b.Map? { SpellsOneEntries(h, h[x].refs, es, b.entries); }
    case _ =>
  }

  lemma {:induction false} SpellsOneAll(h: Heap, refs: seq<Addr>, xs: seq<Item>, ys: seq<Item>)
    requires SpellsAll(h, refs, xs) && SpellsAll(h, refs, ys)
    ensures xs == ys
    decreases SizeAll(xs), 1, |xs|
  {
    if xs != [] && ys != [] {
      SpellsOne(h, refs[0], xs[0], ys[0]);
      SpellsOneAll(h, refs[1..], xs[1..], ys[1..]);
      assert xs == [xs[0]] + xs[1..] && ys == [ys[0]] + ys[1..];
    }
  }

  lemma {:induction false} SpellsOneEntries(h: Heap, refs: seq<Addr>, es: seq<Pair>, fs: seq<Pair>)
    requires SpellsEntries(h, refs, es) && SpellsEntries(h, refs, fs)
    ensures es == fs
    decreases SizeEntries(es), 1, |es|
  {
    if es != [] && fs != [] {
      SpellsOne(h, refs[0], es[0].key, fs[0].key);
      SpellsOne(h, refs[1], es[0].value, fs[0].value);
      SpellsOneEntries(h, refs[2..], es[1..], fs[1..]);
      assert es == [es[0]] + es[1..] && fs == [fs[0]] + fs[1..];
    }
  }

  // ----- The comparison -----------------------------------------------------------------------

  ghost function ItemsOf(a: Item): seq<Item> { if a.Array? || a.Struct? then a.items else [] }
  ghost function EntriesOf(a: Item): seq<Pair> { if a.Map? then a.entries else [] }

  /** `stack_item_equals`, with its shortcut for two references to one item. */
  predicate HeapEquals(h: Heap, x: Addr, y: Addr, ghost a: Item, ghost b: Item)
    requires Spells(h, x, a) && Spells(h, y, b)
    decreases Size(a) + Size(b), 0
  {
    x == y ||
    match (h[x].kind, h[y].kind)
    case (Leaf(p), Leaf(q)) => Equals(p, q)
    case (Sequence(s), Sequence(t)) =>
      s == t && |h[x].refs| == |h[y].refs| && HeapEqualAll(h, h[x].refs, h[y].refs, ItemsOf(a), ItemsOf(b))
    case (Mapping, Mapping) =>
      |h[x].refs| == |h[y].refs| && HeapCovers(h, h[x].refs, h[y].refs, EntriesOf(a), EntriesOf(b))
    case _ => false
  }

  predicate HeapEqualAll(h: Heap, rs: seq<Addr>, ss: seq<Addr>, ghost xs: seq<Item>, ghost ys: seq<Item>)
    requires |rs| == |ss| && SpellsAll(h, rs, xs) && SpellsAll(h, ss, ys)
    decreases SizeAll(xs) + SizeAll(ys), 1, |rs|
  {
    rs == [] ||
    (HeapEquals(h, rs[0], ss[0], xs[0], ys[0]) && HeapEqualAll(h, rs[1..], ss[1..], xs[1..], ys[1..]))
  }

  predicate HeapCovers(h: Heap, rs: seq<Addr>, ss: seq<Addr>, ghost es: seq<Pair>, ghost fs: seq<Pair>)
    requires SpellsEntries(h, rs, es) && SpellsEntries(h, ss, fs)
    decreases SizeEntries(es) + SizeEntries(fs), 1, |rs|
  {
    SpellsCount(h, rs, es);
    SpellsCount(h, ss, fs);
    rs == [] ||
    (var i := HeapFind(h, ss, rs[0], fs, es[0].key);
     i < |ss| / 2
     && (SpellsEntry(h, ss, fs, i); SizeOfEntry(fs, i); HeapEquals(h, rs[1], ss[2 * i + 1], es[0].value, fs[i].value))
     && HeapCovers(h, rs[2..], ss, es[1..], fs))
  }

  /** The number of entries before the first one with an equal key. */
  function HeapFind(h: Heap, ss: seq<Addr>, key: Addr, ghost fs: seq<Pair>, ghost k: Item): (i: nat)
    requires SpellsEntries(h, ss, fs) && Spells(h, key, k)
    ensures i <= |fs|
    decreases SizeEntries(fs) + Size(k), 1, |ss|
  {
    SpellsCount(h, ss, fs);
    if ss == [] || HeapEquals(h, ss[0], key, fs[0].key, k) then 0 else 1 + HeapFind(h, ss[2..], key, fs[1..], k)
  }

  // ----- The comparison is equality of values -------------------------------------------------

  lemma {:induction false} HeapEqualsIs(h: Heap, x: Addr, y: Addr, a: Item, b: Item)
    requires Spells(h, x, a) && Spells(h, y, b) && WellFormed(a) && WellFormed(b)
    ensures HeapEquals(h, x, y, a, b) <==> Equals(a, b)
    decreases Size(a) + Size(b), 0
  {
    if x == y {
      SpellsOne(h, x, a, b);
      EqualsIsEquivalence(a, a, a);
    } else if h[x].kind.Sequence? && h[y].kind.Sequence? {
      SpellsItems(h, h[x].refs, ItemsOf(a));
      SpellsItems(h, h[y].refs, ItemsOf(b));
      if |h[x].refs| == |h[y].refs| {
        HeapEqualAllIs(h, h[x].refs, h[y].refs, ItemsOf(a), ItemsOf(b));
      }
    } else if h[x].kind == Mapping && h[y].kind == Mapping {
      SpellsCount(h, h[x].refs, EntriesOf(a));
      SpellsCount(h, h[y].refs, EntriesOf(b));
      HeapCoversIs(h, h[x].refs, h[y].refs, EntriesOf(a), EntriesOf(b));
    }
  }

  lemma {:induction false} HeapEqualAllIs(h: Heap, rs: seq<Addr>, ss: seq<Addr>, xs: seq<Item>, ys: seq<Item>)
    requires |rs| == |ss| && |xs| == |ys| && SpellsAll(h, rs, xs) && SpellsAll(h, ss, ys)
    requires WellFormedAll(xs) && WellFormedAll(ys)
    ensures HeapEqualAll(h, rs, ss, xs, ys) <==> EqualAll(xs, ys)
    decreases SizeAll(xs) + SizeAll(ys), 1, |rs|
  {
    if xs != [] {
      HeapEqualsIs(h, rs[0], ss[0], xs[0], ys[0]);
      HeapEqualAllIs(h, rs[1..], ss[1..], xs[1..], ys[1..]);
    }
  }

  lemma {:induction false} HeapCoversIs(h: Heap, rs: seq<Addr>, ss: seq<Addr>, es: seq<Pair>, fs: seq<Pair>)
    requires SpellsEntries(h, rs, es) && SpellsEntries(h, ss, fs) && WellFormedEntries(es) && WellFormedEntries(fs)
    ensures HeapCovers(h, rs, ss, es, fs) <==> Covers(es, fs)
    decreases SizeEntries(es) + SizeEntries(fs), 1, |rs|
  {
    SpellsCount(h, rs, es);
    SpellsCount(h, ss, fs);
    if es != [] {
      HeapFindIs(h, ss, rs[0], fs, es[0].key);
      var i := Find(fs, es[0].key);
      if i < |fs| {
        SpellsEntry(h, ss, fs, i);
        SizeOfEntry(fs, i);
        WellFormedAt(fs, i);
        HeapEqualsIs(h, rs[1], ss[2 * i + 1], es[0].value, fs[i].value);
      }
      HeapCoversIs(h, rs[2..], ss, es[1..], fs);
    }
  }

  lemma {:induction false} HeapFindIs(h: Heap, ss: seq<Addr>, key: Addr, fs: seq<Pair>, k: Item)
    requires SpellsEntries(h, ss, fs) && Spells(h, key, k) && WellFormedEntries(fs) && WellFormed(k)
    ensures HeapFind(h, ss, key, fs, k) == Find(fs, k)
    decreases SizeEntries(fs) + Size(k), 1, |ss|
  {
    if fs != [] {
      HeapEqualsIs(h, ss[0], key, fs[0].key, k);
      HeapFindIs(h, ss[2..], key, fs[1..], k);
    }
  }

  /** On items whose maps hold pairwise unequal keys, the comparison decides whether two items denote the same value. */
  lemma HeapEqualsIsSameValue(h: Heap, x: Addr, y: Addr, a: Item, b: Item)
    requires Spells(h, x, a) && Spells(h, y, b) && WellFormed(a) && WellFormed(b)
    ensures HeapEquals(h, x, y, a, b) <==> Denote(a) == Denote(b)
  {
    HeapEqualsIs(h, x, y, a, b);
    EqualsIsSameValue(a, b);
  }

  // ----- What a change leaves alone -----------------------------------------------------------

  /** Every item but `m` is freed or has kept its contents. */
  ghost predicate ChangesOnly(h: Heap, h': Heap, m: Addr) {
    |h'| == |h| && forall z :: 0 <= z < |h| && z != m ==> Intact(h[z], h'[z])
  }

  predicate Intact(c: Cell, c': Cell) { c'.Freed? || (c.Live? && c'.kind == c.kind && c'.refs == c.refs) }

  /** The references are to items that are still there and do not lead to the changed one. */
  ghost predicate Untouched(h: Heap, h': Heap, m: Addr, refs: seq<Addr>) {
    forall i :: 0 <= i < |refs| ==> refs[i] < |h'| && h'[refs[i]].Live? && !Leads(h, refs[i], m)
  }

  lemma HeldIsUntouched(h: Heap, h': Heap, roots: multiset<Addr>, m: Addr, z: Addr)
    requires Counted(h', {}, roots) && z < |h| == |h'| && RefsOf(h'[z]) == RefsOf(h[z]) && !Leads(h, z, m)
    ensures Untouched(h, h', m, RefsOf(h[z]))
  {
    var refs := RefsOf(h[z]);
    forall i | 0 <= i < |refs|
      ensures refs[i] < |h'| && h'[refs[i]].Live? && !Leads(h, refs[i], m)
    {
      ReferredIsLive(h', roots, z, refs[i]);
      if Leads(h, refs[i], m) {
        LeadsFromReferrer(h, z, refs[i], m);
      }
    }
  }

  /** What does not lead to the changed item, and is still there, spells what it did. */
  lemma {:induction false} SpellsStill(h: Heap, h': Heap, roots: multiset<Addr>, m: Addr, x: Addr, a: Item)
    requires ChangesOnly(h, h', m) && Counted(h', {}, roots) && x < |h'| && h'[x].Live?
    requires Spells(h, x, a) && !Leads(h, x, m)
    ensures Spells(h', x, a)
    decreases Size(a), 0
  {
    LeadsToItself(h, x);
    assert Intact(h[x], h'[x]);
    HeldIsUntouched(h, h', roots, m, x);
    match a
    case Array(xs) => SpellsAllStill(h, h', roots, m, h[x].refs, xs);
    case Struct(xs) => SpellsAllStill(h, h', roots, m, h[x].refs, xs);
    case Map(es) => SpellsEntriesStill(h, h', roots, m, h[x].refs, es);
    case _ =>
  }

  lemma {:induction false} SpellsAllStill(h: Heap, h': Heap, roots: multiset<Addr>, m: Addr, refs: seq<Addr>, xs: seq<Item>)
    requires ChangesOnly(h, h', m) && Counted(h', {}, roots) && Untouched(h, h', m, refs) && SpellsAll(h, refs, xs)
    ensures SpellsAll(h', refs, xs)
    decreases SizeAll(xs), 1, |xs|
  {
    if xs != [] {
      SpellsStill(h, h', roots, m, refs[0], xs[0]);
      SpellsAllStill(h, h', roots, m, refs[1..], xs[1..]);
    }
  }

  lemma {:induction false} SpellsEntriesStill(h: Heap, h': Heap, roots: multiset<Addr>, m: Addr, refs: seq<Addr>, es: seq<Pair>)
    requires ChangesOnly(h, h', m) && Counted(h', {}, roots) && Untouched(h, h', m, refs) && SpellsEntries(h, refs, es)
    ensures SpellsEntries(h', refs, es)
    decreases SizeEntries(es), 1, |es|
  {
    if es != [] {
      SpellsStill(h, h', roots, m, refs[0], es[0].key);
      SpellsStill(h, h', roots, m, refs[1], es[0].value);
      SpellsEntriesStill(h, h', roots, m, refs[2..], es[1..]);
    }
  }

  // ----- An item that spells a value does not contain itself ----------------------------------

  lemma {:induction false} ElementSpells(h: Heap, refs: seq<Addr>, xs: seq<Item>, i: nat)
    requires SpellsAll(h, refs, xs) && i < |refs|
    ensures |refs| == |xs| && Spells(h, refs[i], xs[i])
    decreases |xs|
  {
    SpellsItems(h, refs, xs);
    if i > 0 {
      ElementSpells(h, refs[1..], xs[1..], i - 1);
    }
  }

  /** What an item refers to spells something smaller. */
  lemma PartSpells(h: Heap, x: Addr, a: Item, y: Addr) returns (b: Item)
    requires Spells(h, x, a) && y in RefsOf(h[x]) && (h[x].kind.Leaf? ==> h[x].refs == [])
    ensures Spells(h, y, b) && Size(b) < Size(a)
  {
    var refs := h[x].refs;
    var i :| 0 <= i < |refs| && refs[i] == y;
    if a.Map? {
      SpellsCount(h, refs, a.entries);
      SpellsEntry(h, refs, a.entries, i / 2);
      SizeOfEntry(a.entries, i / 2);
      b := if i % 2 == 0 then a.entries[i / 2].key else a.entries[i / 2].value;
    } else {
      ElementSpells(h, refs, ItemsOf(a), i);
      SizeOfElement(ItemsOf(a), i);
      b := ItemsOf(a)[i];
    }
  }

  lemma {:induction false} SmallerAlongTheWay(h: Heap, x: Addr, a: Item, p: seq<Addr>) returns (b: Item)
    requires AllFit(h) && Spells(h, x, a) && Path(h, multiset{x}, p)
    ensures Spells(h, p[|p| - 1], b) && Size(b) <= Size(a)
    decreases |p|
  {
    if |p| == 1 {
      b := a;
    } else {
      var q := p[..|p| - 1];
      var d := SmallerAlongTheWay(h, x, a, q);
      assert Fits(h[q[|q| - 1]]);
      b := PartSpells(h, q[|q| - 1], d, p[|p| - 1]);
    }
  }

  lemma NeverBack(h: Heap, x: Addr, a: Item, y: Addr)
    requires AllFit(h) && Spells(h, x, a) && y in RefsOf(h[x])
    ensures !Leads(h, y, x)
  {
    if Leads(h, y, x) {
      assert Fits(h[x]);
      var b := PartSpells(h, x, a, y);
      var p :| Path(h, multiset{y}, p) && p[|p| - 1] == x;
      var d := SmallerAlongTheWay(h, y, b, p);
      SpellsOne(h, x, a, d);
      assert false;
    }
  }

  // ----- Map set refines the update of entries ------------------------------------------------

  ghost predicate SpellsPair(h: Heap, refs: seq<Addr>, i: nat, e: Pair)
    requires 2 * i + 1 < |refs|
  {
    Spells(h, refs[2 * i], e.key) && Spells(h, refs[2 * i + 1], e.value)
  }

  lemma {:induction false} SpellsEach(h: Heap, refs: seq<Addr>, es: seq<Pair>)
    requires |refs| == 2 * |es| && forall i :: 0 <= i < |es| ==> SpellsPair(h, refs, i, es[i])
    ensures SpellsEntries(h, refs, es)
    decreases |es|
  {
    if es != [] {
      assert SpellsPair(h, refs, 0, es[0]);
      forall i | 0 <= i < |es| - 1
        ensures SpellsPair(h, refs[2..], i, es[1..][i])
      {
        assert SpellsPair(h, refs, i + 1, es[i + 1]);
      }
      SpellsEach(h, refs[2..], es[1..]);
    }
  }

  /** Where the search of a map stops, as an entry or none. */
  function Hit(es: seq<Pair>, key: Item): Option<nat> {
    if Find(es, key) < |es| then Some(Find(es, key)) else None
  }

  /** A reference that the changed map still holds spells what it did. */
  lemma PartStill(h: Heap, h': Heap, roots: multiset<Addr>, m: Addr, a: Item, x: Addr, b: Item)
    requires ChangesOnly(h, h', m) && Counted(h', {}, roots) && AllFit(h) && m < |h| && Spells(h, m, a)
    requires x in RefsOf(h[m]) && x in RefsOf(h'[m]) && Spells(h, x, b)
    ensures Spells(h', x, b)
  {
    NeverBack(h, m, a, x);
    ReferredIsLive(h', roots, m, x);
    SpellsStill(h, h', roots, m, x, b);
  }

  lemma ReplacedMapSpells(h: Heap, h': Heap, roots: multiset<Addr>, m: Addr, v: Addr, i: nat, es: seq<Pair>, b: Item)
    requires ChangesOnly(h, h', m) && Counted(h', {}, roots) && AllFit(h)
    requires Spells(h, m, Map(es)) && Spells(h', v, b) && i < |es| && 2 * i + 1 < |h[m].refs|
    requires h'[m].Live? && h'[m].kind == Mapping && h'[m].refs == h[m].refs[2 * i + 1 := v]
    ensures Spells(h', m, Map(es[i := Pair(es[i].key, b)]))
  {
    var refs, es' := h[m].refs, es[i := Pair(es[i].key, b)];
    SpellsCount(h, refs, es);
    forall j | 0 <= j < |es|
      ensures SpellsPair(h', h'[m].refs, j, es'[j])
    {
      SpellsEntry(h, refs, es, j);
      assert h'[m].refs[2 * j] == refs[2 * j];
      PartStill(h, h', roots, m, Map(es), refs[2 * j], es[j].key);
      if j != i {
        assert h'[m].refs[2 * j + 1] == refs[2 * j + 1];
        PartStill(h, h', roots, m, Map(es), refs[2 * j + 1], es[j].value);
      }
    }
    SpellsEach(h', h'[m].refs, es');
  }

  lemma AppendedMapSpells(h: Heap, h': Heap, roots: multiset<Addr>, m: Addr, k: Addr, v: Addr, es: seq<Pair>, e: Pair)
    requires ChangesOnly(h, h', m) && Counted(h', {}, roots) && AllFit(h)
    requires Spells(h, m, Map(es)) && Spells(h', k, e.key) && Spells(h', v, e.value)
    requires h'[m].Live? && h'[m].kind == Mapping && h'[m].refs == h[m].refs + [k, v]
    ensures Spells(h', m, Map(es + [e]))
  {
    var refs := h[m].refs;
    SpellsCount(h, refs, es);
    forall j | 0 <= j < |es| + 1
      ensures SpellsPair(h', h'[m].refs, j, (es + [e])[j])
    {
      if j < |es| {
        SpellsEntry(h, refs, es, j);
        assert h'[m].refs[2 * j] == refs[2 * j];
        assert h'[m].refs[2 * j + 1] == refs[2 * j + 1];
        PartStill(h, h', roots, m, Map(es), refs[2 * j], es[j].key);
        PartStill(h, h', roots, m, Map(es), refs[2 * j + 1], es[j].value);
      }
    }
    SpellsEach(h', h'[m].refs, es + [e]);
  }

  lemma OwnedStaysSpelled(s: State, op: Op, m: Addr, x: Addr, a: Item)
    requires Inv(s) && Allowed(s, op) && ChangesOnly(s.heap, Step(s, op).heap, m)
    requires x in s.roots && x in Step(s, op).roots && Spells(s.heap, x, a) && !Leads(s.heap, x, m)
    ensures Spells(Step(s, op).heap, x, a)
  {
    var s' := Step(s, op);
    StepKeepsInv(s, op);
    ReferencedIsLive(s'.heap, {}, s'.roots, x);
    SpellsStill(s.heap, s'.heap, s'.roots, m, x, a);
  }

  /** A write touches the map alone; what it releases may be freed. */
  lemma PutChangesOnly(s: State, m: Addr, k: Addr, v: Addr, hit: Option<nat>, memory: bool)
    requires Inv(s) && Allowed(s, Put(m, k, v, hit, memory))
    ensures ChangesOnly(s.heap, Step(s, Put(m, k, v, hit, memory)).heap, m)
  {
    ReferencedIsLive(s.heap, {}, s.roots, m);
    ReferencedIsLive(s.heap, {}, s.roots, k);
    ReferencedIsLive(s.heap, {}, s.roots, v);
    if hit.Some? && s.heap[m].kind == Mapping {
      ReplaceShape(s.heap, s.roots, m, v, 2 * hit.value + 1);
    }
  }

  lemma ReplacingIs(s: State, m: Addr, k: Addr, v: Addr, i: nat, memory: bool)
    requires Inv(s) && Allowed(s, Put(m, k, v, Some(i), memory)) && m < |s.heap| && s.heap[m].Live? && s.heap[m].kind == Mapping
    ensures 2 * i + 1 < |s.heap[m].refs|
    ensures var s' := Step(s, Put(m, k, v, Some(i), memory));
            && s'.roots == s.roots && m < |s'.heap|
            && s'.heap[m].Live? && s'.heap[m].kind == Mapping && s'.heap[m].refs == s.heap[m].refs[2 * i + 1 := v]
  {
    ReferencedIsLive(s.heap, {}, s.roots, k);
    ReferencedIsLive(s.heap, {}, s.roots, v);
    ReplaceShape(s.heap, s.roots, m, v, 2 * i + 1);
  }

  lemma ReplacingRefines(s: State, m: Addr, k: Addr, v: Addr, i: nat, memory: bool, es: seq<Pair>, value: Item)
    requires Inv(s) && Allowed(s, Put(m, k, v, Some(i), memory)) && i < |es| && !Leads(s.heap, v, m)
    requires Spells(s.heap, m, Map(es)) && Spells(s.heap, v, value)
    ensures Spells(Step(s, Put(m, k, v, Some(i), memory)).heap, m, Map(es[i := Pair(es[i].key, value)]))
  {
    var op := Put(m, k, v, Some(i), memory);
    ReplacingIs(s, m, k, v, i, memory);
    StepKeepsInv(s, op);
    PutChangesOnly(s, m, k, v, Some(i), memory);
    OwnedStaysSpelled(s, op, m, v, value);
    ReplacedMapSpells(s.heap, Step(s, op).heap, s.roots, m, v, i, es, value);
  }

  lemma AppendingRefines(s: State, m: Addr, k: Addr, v: Addr, memory: bool, es: seq<Pair>, e: Pair)
    requires Inv(s) && Allowed(s, Put(m, k, v, None, memory)) && !Leads(s.heap, k, m) && !Leads(s.heap, v, m)
    requires Spells(s.heap, m, Map(es)) && Spells(s.heap, k, e.key) && Spells(s.heap, v, e.value)
    requires HasRoom(s.heap, m, memory)
    ensures Spells(Step(s, Put(m, k, v, None, memory)).heap, m, Map(es + [e]))
  {
    var op := Put(m, k, v, None, memory);
    StepKeepsInv(s, op);
    PutChangesOnly(s, m, k, v, None, memory);
    OwnedStaysSpelled(s, op, m, k, e.key);
    OwnedStaysSpelled(s, op, m, v, e.value);
    AppendedMapSpells(s.heap, Step(s, op).heap, s.roots, m, k, v, es, e);
  }

  /**
   * A harmless `stack_item_map_set` whose search is by equality of items, and that has the memory it needs, makes the
   * map spell the updated entries.
   */
  lemma MapSetRefines(s: State, m: Addr, k: Addr, v: Addr, memory: bool, es: seq<Pair>, key: Item, value: Item)
    requires var op := Put(m, k, v, Hit(es, key), memory);
             Inv(s) && Allowed(s, op) && Harmless(s, op)
    requires Spells(s.heap, m, Map(es)) && Spells(s.heap, k, key) && Spells(s.heap, v, value)
    requires Hit(es, key).None? ==> HasRoom(s.heap, m, memory)
    ensures Spells(Step(s, Put(m, k, v, Hit(es, key), memory)).heap, m, Map(Set(es, key, value)))
  {
    ReferencedIsLive(s.heap, {}, s.roots, m);
    match Hit(es, key)
    case Some(i) => ReplacingRefines(s, m, k, v, i, memory, es, value);
    case None => AppendingRefines(s, m, k, v, memory, es, Pair(key, value));
  }

  // ----- Array add refines appending ----------------------------------------------------------

  /** An array or a struct of the given items. */
  function Sequenced(isStruct: bool, xs: seq<Item>): Item { if isStruct then Struct(xs) else Array(xs) }

  lemma {:induction false} SpellsOneMore(h: Heap, refs: seq<Addr>, xs: seq<Item>, x: Addr, v: Item)
    requires SpellsAll(h, refs, xs) && Spells(h, x, v)
    ensures SpellsAll(h, refs + [x], xs + [v])
    decreases |xs|
  {
    if xs == [] {
      assert refs + [x] == [x] && xs + [v] == [v] && [x][1..] == [] && [v][1..] == [];
    } else {
      assert (refs + [x])[1..] == refs[1..] + [x] && (xs + [v])[1..] == xs[1..] + [v];
      SpellsOneMore(h, refs[1..], xs[1..], x, v);
    }
  }

  lemma AddChangesOnly(s: State, a: Addr, x: Addr, memory: bool)
    requires Inv(s) && Allowed(s, Add(a, x, memory))
    ensures ChangesOnly(s.heap, Step(s, Add(a, x, memory)).heap, a)
  {
    ReferencedIsLive(s.heap, {}, s.roots, a);
    ReferencedIsLive(s.heap, {}, s.roots, x);
  }

  /** A granted addition puts the reference behind those that are there. */
  lemma AddAppends(s: State, a: Addr, x: Addr, memory: bool)
    requires Inv(s) && Allowed(s, Add(a, x, memory)) && a < |s.heap| && s.heap[a].Live?
    requires s.heap[a].kind.Sequence? && HasRoom(s.heap, a, memory)
    ensures var s' := Step(s, Add(a, x, memory));
            && s'.roots == s.roots && a < |s'.heap|
            && s'.heap[a].Live? && s'.heap[a].kind == s.heap[a].kind && s'.heap[a].refs == s.heap[a].refs + [x]
  {
    ReferencedIsLive(s.heap, {}, s.roots, x);
  }

  /** `stack_item_array_add` makes an array or a struct spell one item more, at the end. */
  lemma AddRefines(s: State, a: Addr, x: Addr, memory: bool, isStruct: bool, xs: seq<Item>, v: Item)
    requires Inv(s) && Allowed(s, Add(a, x, memory)) && !Leads(s.heap, x, a)
    requires Spells(s.heap, a, Sequenced(isStruct, xs)) && Spells(s.heap, x, v) && HasRoom(s.heap, a, memory)
    ensures Spells(Step(s, Add(a, x, memory)).heap, a, Sequenced(isStruct, xs + [v]))
  {
    var op := Add(a, x, memory);
    var h, h' := s.heap, Step(s, op).heap;
    AddAppends(s, a, x, memory);
    StepKeepsInv(s, op);
    AddChangesOnly(s, a, x, memory);
    OwnedStaysSpelled(s, op, a, x, v);
    var refs := h[a].refs;
    forall i | 0 <= i < |refs|
      ensures refs[i] < |h'| && h'[refs[i]].Live? && !Leads(h, refs[i], a)
    {
      NeverBack(h, a, Sequenced(isStruct, xs), refs[i]);
      assert refs[i] == h'[a].refs[i];
      ReferredIsLive(h', s.roots, a, refs[i]);
    }
    SpellsAllStill(h, h', s.roots, a, refs, xs);
    SpellsOneMore(h', refs, xs, x, v);
  }

  function AddOne(a: Addr): (State, Addr) -> State { (s: State, x: Addr) => Step(s, Add(a, x, true)) }

  /** The state after adding items to a container one after the other, with memory granted. */
  function AddAll(s: State, a: Addr, items: seq<Addr>): State { Fold(AddOne(a), s, items) }

  /** What does not lead to a container before an addition to it does not lead to it afterwards. */
  lemma StillNotLeading(s: State, a: Addr, x: Addr, y: Addr)
    requires Inv(s) && Allowed(s, Add(a, x, true)) && !Leads(s.heap, y, a)
    ensures !Leads(Step(s, Add(a, x, true)).heap, y, a)
  {
    var h, h' := s.heap, Step(s, Add(a, x, true)).heap;
    ReferencedIsLive(h, {}, s.roots, a);
    ReferencedIsLive(h, {}, s.roots, x);
    if Leads(h', y, a) {
      LeadingIsKept(h', h, a, y);
    }
  }

  /** The caller holds the item, which spells `v` and does not lead to the container. */
  ghost predicate CanAdd(s: State, a: Addr, x: Addr, v: Item) {
    x in s.roots && Spells(s.heap, x, v) && !Leads(s.heap, x, a)
  }

  ghost predicate CanAddAll(s: State, a: Addr, items: seq<Addr>, vs: seq<Item>) {
    |items| == |vs| && forall i :: 0 <= i < |items| ==> CanAdd(s, a, items[i], vs[i])
  }

  lemma StillCanAdd(s: State, a: Addr, x: Addr, y: Addr, v: Item)
    requires Inv(s) && Allowed(s, Add(a, x, true)) && CanAdd(s, a, y, v)
    ensures CanAdd(Step(s, Add(a, x, true)), a, y, v)
  {
    AddChangesOnly(s, a, x, true);
    OwnedStaysSpelled(s, Add(a, x, true), a, y, v);
    StillNotLeading(s, a, x, y);
  }

  /** The container spells `xs`, and all of the items can be added. */
  ghost predicate Filled(s: State, a: Addr, items: seq<Addr>, isStruct: bool, xs: seq<Item>, vs: seq<Item>) {
    Inv(s) && a in s.roots && Spells(s.heap, a, Sequenced(isStruct, xs)) && CanAddAll(s, a, items, vs)
  }

  lemma OneAddition(s: State, a: Addr, items: seq<Addr>, i: nat, isStruct: bool, xs: seq<Item>, vs: seq<Item>)
    requires Filled(s, a, items, isStruct, xs, vs) && i < |items|
    ensures Filled(AddOne(a)(s, items[i]), a, items, isStruct, xs + [vs[i]], vs)
  {
    var op := Add(a, items[i], true);
    assert CanAdd(s, a, items[i], vs[i]);
    AddRefines(s, a, items[i], true, isStruct, xs, vs[i]);
    StepKeepsInv(s, op);
    forall j | 0 <= j < |items|
      ensures CanAdd(Step(s, op), a, items[j], vs[j])
    {
      assert CanAdd(s, a, items[j], vs[j]);
      StillCanAdd(s, a, items[i], items[j], vs[j]);
    }
  }

  /** After the first `i` additions. */
  ghost function FilledAfter(a: Addr, items: seq<Addr>, isStruct: bool, xs: seq<Item>, vs: seq<Item>): (State, nat) -> bool {
    (s: State, i: nat) => i <= |vs| && Filled(s, a, items, isStruct, xs + vs[..i], vs)
  }

  lemma FilledStart(s: State, a: Addr, items: seq<Addr>, isStruct: bool, xs: seq<Item>, vs: seq<Item>)
    requires Filled(s, a, items, isStruct, xs, vs)
    ensures FilledAfter(a, items, isStruct, xs, vs)(s, 0)
  {
    assert xs + vs[..0] == xs;
  }

  lemma FilledStep(s: State, i: nat, a: Addr, items: seq<Addr>, isStruct: bool, xs: seq<Item>, vs: seq<Item>)
    requires FilledAfter(a, items, isStruct, xs, vs)(s, i) && i < |items| == |vs|
    ensures FilledAfter(a, items, isStruct, xs, vs)(AddOne(a)(s, items[i]), i + 1)
  {
    PrefixNext(xs, vs, i);
    OneAddition(s, a, items, i, isStruct, xs + vs[..i], vs);
  }

  lemma PrefixNext(xs: seq<Item>, vs: seq<Item>, i: nat)
    requires i < |vs|
    ensures xs + vs[..i] + [vs[i]] == xs + vs[..i + 1]
  {
  }

  lemma FilledEnd(s: State, a: Addr, items: seq<Addr>, isStruct: bool, xs: seq<Item>, vs: seq<Item>)
    requires FilledAfter(a, items, isStruct, xs, vs)(s, |vs|)
    ensures Spells(s.heap, a, Sequenced(isStruct, xs + vs))
  {
    assert vs[..|vs|] == vs;
  }

  /** After any run of additions the array or struct spells what it did, and behind it the added items in order. */
  lemma AddsInOrder(s: State, a: Addr, items: seq<Addr>, isStruct: bool, xs: seq<Item>, vs: seq<Item>)
    requires Filled(s, a, items, isStruct, xs, vs)
    ensures Spells(AddAll(s, a, items).heap, a, Sequenced(isStruct, xs + vs))
  {
    FilledStart(s, a, items, isStruct, xs, vs);
    AddsKeepFilled(s, a, items, isStruct, xs, vs);
    FilledEnd(AddAll(s, a, items), a, items, isStruct, xs, vs);
  }

  lemma AddsKeepFilled(s: State, a: Addr, items: seq<Addr>, isStruct: bool, xs: seq<Item>, vs: seq<Item>)
    requires |items| == |vs| && FilledAfter(a, items, isStruct, xs, vs)(s, 0)
    ensures FilledAfter(a, items, isStruct, xs, vs)(AddAll(s, a, items), |vs|)
  {
    var inv := FilledAfter(a, items, isStruct, xs, vs);
    forall r, j {:trigger inv(r, j)} | 0 <= j < |items| && inv(r, j)
      ensures inv(AddOne(a)(r, items[j]), j + 1)
    {
      FilledStep(r, j, a, items, isStruct, xs, vs);
    }
    assert items[0..] == items;
    FoldKeeps(AddOne(a), s, items, 0, inv);
  }

  /** A read by the heap's search returns an item that spells what the entries read. */
  lemma MapGetRefines(h: Heap, m: Addr, k: Addr, es: seq<Pair>, key: Item)
    requires Spells(h, m, Map(es)) && Spells(h, k, key) && WellFormedEntries(es) && WellFormed(key)
    ensures var i := HeapFind(h, h[m].refs, k, es, key);
            && |h[m].refs| == 2 * |es|
            && (i == |es| <==> Get(es, key) == None)
            && (i < |es| ==> Get(es, key).Some? && Spells(h, h[m].refs[2 * i + 1], Get(es, key).value))
  {
    SpellsCount(h, h[m].refs, es);
    HeapFindIs(h, h[m].refs, k, es, key);
    if Find(es, key) < |es| {
      SpellsEntry(h, h[m].refs, es, Find(es, key));
    }
  }

  // ----- Acyclic heaps spell values -----------------------------------------------------------

  /** On an acyclic heap every live item spells a value, and only one. */
  lemma AcyclicSpells(s: State, x: Addr) returns (a: Item)
    requires Inv(s) && Acyclic(s.heap) && x < |s.heap| && s.heap[x].Live?
    ensures Spells(s.heap, x, a) && forall b :: Spells(s.heap, x, b) ==> b == a
  {
    var rank: Addr -> nat, bound: nat :| Ranked(s.heap, rank, bound);
    a := Unfold(s.heap, s.roots, rank, bound, x);
    forall b | Spells(s.heap, x, b)
      ensures b == a
    {
      SpellsOne(s.heap, x, a, b);
    }
  }

  lemma {:induction false} Unfold(h: Heap, roots: multiset<Addr>, rank: Addr -> nat, bound: nat, x: Addr) returns (a: Item)
    requires Counted(h, {}, roots) && AllFit(h) && Ranked(h, rank, bound) && x < |h| && h[x].Live?
    ensures Spells(h, x, a)
    decreases rank(x), 0
  {
    assert Fits(h[x]);
    match h[x].kind
    case Leaf(atom) =>
      a := atom;
    case Sequence(isStruct) =>
      var xs := UnfoldAll(h, roots, rank, bound, x, h[x].refs);
      a := if isStruct then Struct(xs) else Array(xs);
    case Mapping =>
      var es := UnfoldEntries(h, roots, rank, bound, x, h[x].refs);
      a := Map(es);
  }

  lemma {:induction false} UnfoldAll(h: Heap, roots: multiset<Addr>, rank: Addr -> nat, bound: nat, z: Addr, refs: seq<Addr>)
    returns (xs: seq<Item>)
    requires Counted(h, {}, roots) && AllFit(h) && Ranked(h, rank, bound) && z < |h|
    requires forall i :: 0 <= i < |refs| ==> refs[i] in RefsOf(h[z])
    ensures SpellsAll(h, refs, xs)
    decreases rank(z), 0, |refs|
  {
    if refs == [] {
      xs := [];
    } else {
      ReferredIsLive(h, roots, z, refs[0]);
      var first := Unfold(h, roots, rank, bound, refs[0]);
      var others := UnfoldAll(h, roots, rank, bound, z, refs[1..]);
      xs := [first] + others;
      assert xs[1..] == others;
    }
  }

  lemma {:induction false} UnfoldEntries(h: Heap, roots: multiset<Addr>, rank: Addr -> nat, bound: nat, z: Addr, refs: seq<Addr>)
    returns (es: seq<Pair>)
    requires Counted(h, {}, roots) && AllFit(h) && Ranked(h, rank, bound) && z < |h| && |refs| % 2 == 0
    requires forall i :: 0 <= i < |refs| ==> refs[i] in RefsOf(h[z])
    ensures SpellsEntries(h, refs, es)
    decreases rank(z), 0, |refs|
  {
    if refs == [] {
      es := [];
    } else {
      ReferredIsLive(h, roots, z, refs[0]);
      ReferredIsLive(h, roots, z, refs[1]);
      var key := Unfold(h, roots, rank, bound, refs[0]);
      var value := Unfold(h, roots, rank, bound, refs[1]);
      var others := UnfoldEntries(h, roots, rank, bound, z, refs[2..]);
      es := [Pair(key, value)] + others;
      assert es[1..] == others;
    }
  }
}
