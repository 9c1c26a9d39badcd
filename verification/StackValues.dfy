/** Neo VM stack items as values: equality and map lookup of `src/protocol/stack_item.c`. */
module StackValues {
  import opened Prelude
  import opened Endian

  datatype Item =
    | Any
    | Boolean(flag: bool)
    | Integer(magnitude: seq<Byte>, negative: bool)
    | ByteString(bytes: seq<Byte>)
    | Buffer(bytes: seq<Byte>)
    | Array(items: seq<Item>)
    | Struct(items: seq<Item>)
    | Map(entries: seq<Pair>)
    | Pointer(target: int, position: nat)
    | Interop(handle: int)

  datatype Pair = Pair(key: Item, value: Item)

  /** The number of nodes of an item, the measure of every recursion here. */
  function Size(a: Item): (n: nat)
    ensures n > 0
  {
    match a
    case Array(xs) => 1 + SizeAll(xs)
    case Struct(xs) => 1 + SizeAll(xs)
    case Map(es) => 1 + SizeEntries(es)
    case _ => 1
  }

  function SizeAll(xs: seq<Item>): nat {
    if xs == [] then 0 else Size(xs[0]) + SizeAll(xs[1..])
  }

  function SizeEntries(es: seq<Pair>): nat {
    if es == [] then 0 else SizePair(es[0]) + SizeEntries(es[1..])
  }

  function SizePair(e: Pair): (n: nat)
    ensures Size(e.key) < n && Size(e.value) < n
  {
    Size(e.key) + Size(e.value)
  }

  lemma {:induction false} SizeOfElement(xs: seq<Item>, i: nat)
    requires i < |xs|
    ensures Size(xs[i]) <= SizeAll(xs)
  {
    if i > 0 {
      SizeOfElement(xs[1..], i - 1);
    }
  }

  lemma {:induction false} SizeOfEntry(es: seq<Pair>, i: nat)
    requires i < |es|
    ensures SizePair(es[i]) <= SizeEntries(es)
  {
    if i > 0 {
      SizeOfEntry(es[1..], i - 1);
    }
  }

  /**
   * `stack_item_equals`, by content. Two references to one item are equal at once in the source; comparing an item
   * with itself by content gives the same answer whenever its maps hold pairwise unequal keys.
   */
  predicate Equals(a: Item, b: Item)
    decreases Size(a) + Size(b), 0
  {
    match (a, b)
    case (Any, Any) => true
    case (Boolean(x), Boolean(y)) => x == y
    case (Integer(x, m), Integer(y, n)) => |x| == |y| && m == n && x == y
    case (ByteString(x), ByteString(y)) => |x| == |y| && x == y
    case (Buffer(x), Buffer(y)) => |x| == |y| && x == y
    case (Array(xs), Array(ys)) => |xs| == |ys| && EqualAll(xs, ys)
    case (Struct(xs), Struct(ys)) => |xs| == |ys| && EqualAll(xs, ys)
    case (Map(es), Map(fs)) => |es| == |fs| && Covers(es, fs)
    case (Pointer(p, i), Pointer(q, j)) => p == q && i == j
    case (Interop(p), Interop(q)) => p == q
    case _ => false
  }

  /** The element loop of the array case. */
  predicate EqualAll(xs: seq<Item>, ys: seq<Item>)
    requires |xs| == |ys|
    decreases SizeAll(xs) + SizeAll(ys), 1, |xs|
  {
    xs == [] || (Equals(xs[0], ys[0]) && EqualAll(xs[1..], ys[1..]))
  }

  /** The entry loop of the map case: each entry of the left map is found, with an equal value, in the right one. */
  predicate Covers(es: seq<Pair>, fs: seq<Pair>)
    decreases SizeEntries(es) + SizeEntries(fs), 1, |es|
  {
    es == [] ||
    (var i := Find(fs, es[0].key);
     i < |fs| && (SizeOfEntry(fs, i); Equals(es[0].value, fs[i].value)) && Covers(es[1..], fs))
  }

  /** The search of `stack_item_map_get` and `stack_item_map_set`: the first equal key, or the end. */
  function Find(fs: seq<Pair>, key: Item): (i: nat)
    ensures i <= |fs|
    decreases SizeEntries(fs) + Size(key), 1, |fs|
  {
    if fs == [] || Equals(fs[0].key, key) then 0 else 1 + Find(fs[1..], key)
  }

  // ----- What an item denotes -----------------------------------------------------------------

  /** Values with mathematical maps: the reference against which equality is judged. */
  datatype Value =
    | Atom(item: Item)
    | List(values: seq<Value>)
    | Record(values: seq<Value>)
    | Table(lookup: map<Value, Value>)

  function Denote(a: Item): Value {
    match a
    case Array(xs) => List(DenoteAll(xs))
    case Struct(xs) => Record(DenoteAll(xs))
    case Map(es) => Table(DenoteEntries(es))
    case _ => Atom(a)
  }

  function DenoteAll(xs: seq<Item>): (vs: seq<Value>)
    ensures |vs| == |xs|
  {
    if xs == [] then [] else [Denote(xs[0])] + DenoteAll(xs[1..])
  }

  /** Earlier entries win, as in the search. */
  function DenoteEntries(es: seq<Pair>): map<Value, Value> {
    if es == [] then map[] else DenoteEntries(es[1..])[DenoteKey(es[0]) := DenoteValue(es[0])]
  }

  function DenoteKey(e: Pair): Value { Denote(e.key) }

  function DenoteValue(e: Pair): Value { Denote(e.value) }

  /** Every map inside holds pairwise unequal keys. */
  ghost predicate WellFormed(a: Item) {
    match a
    case Array(xs) => WellFormedAll(xs)
    case Struct(xs) => WellFormedAll(xs)
    case Map(es) => WellFormedEntries(es)
    case _ => true
  }

  ghost predicate WellFormedAll(xs: seq<Item>) {
    xs == [] || (WellFormed(xs[0]) && WellFormedAll(xs[1..]))
  }

  ghost predicate WellFormedPair(e: Pair) { WellFormed(e.key) && WellFormed(e.value) }

  /** The first key is found nowhere further on: keys are pairwise unequal. */
  ghost predicate WellFormedEntries(es: seq<Pair>) {
    es == [] || (WellFormedPair(es[0]) && WellFormedEntries(es[1..]) && Find(es[1..], es[0].key) == |es| - 1)
  }

  // ----- Equality is equality of denotations --------------------------------------------------

  ghost predicate Submap(m: map<Value, Value>, n: map<Value, Value>) {
    forall k :: k in m ==> k in n && m[k] == n[k]
  }

  lemma {:induction false} EqualsIsSameValue(a: Item, b: Item)
    requires WellFormed(a) && WellFormed(b)
    ensures Equals(a, b) <==> Denote(a) == Denote(b)
    decreases Size(a) + Size(b), 0
  {
    match (a, b)
    case (Array(xs), Array(ys)) => if |xs| == |ys| { AllIsSameValues(xs, ys); }
    case (Struct(xs), Struct(ys)) => if |xs| == |ys| { AllIsSameValues(xs, ys); }
    case (Map(es), Map(fs)) => MapsAreSameTable(es, fs);
    case _ =>
  }

  lemma {:induction false} AllIsSameValues(xs: seq<Item>, ys: seq<Item>)
    requires |xs| == |ys| && WellFormedAll(xs) && WellFormedAll(ys)
    ensures EqualAll(xs, ys) <==> DenoteAll(xs) == DenoteAll(ys)
    decreases SizeAll(xs) + SizeAll(ys), 1, |xs|
  {
    if xs != [] {
      EqualsIsSameValue(xs[0], ys[0]);
      AllIsSameValues(xs[1..], ys[1..]);
      assert DenoteAll(xs)[0] == Denote(xs[0]) && DenoteAll(ys)[0] == Denote(ys[0]);
      assert DenoteAll(xs)[1..] == DenoteAll(xs[1..]) && DenoteAll(ys)[1..] == DenoteAll(ys[1..]);
    }
  }

  /** The search finds a key exactly when the table has its value, and then reads what the table holds. */
  lemma {:induction false} FindReadsTable(fs: seq<Pair>, key: Item)
    requires WellFormedEntries(fs) && WellFormed(key)
    ensures var i, t := Find(fs, key), DenoteEntries(fs);
            && (i < |fs| <==> Denote(key) in t)
            && (i < |fs| ==> Denote(fs[i].key) == Denote(key) && Denote(fs[i].value) == t[Denote(key)])
    decreases SizeEntries(fs) + Size(key), 1, |fs|
  {
    if fs != [] {
      EqualsIsSameValue(fs[0].key, key);
      FindReadsTable(fs[1..], key);
    }
  }

  lemma {:induction false} CoversIsSubmap(es: seq<Pair>, fs: seq<Pair>)
    requires WellFormedEntries(es) && WellFormedEntries(fs)
    ensures Covers(es, fs) <==> Submap(DenoteEntries(es), DenoteEntries(fs))
    decreases SizeEntries(es) + SizeEntries(fs), 1, |es|
  {
    if es != [] {
      var k, i := Denote(es[0].key), Find(fs, es[0].key);
      FindReadsTable(fs, es[0].key);
      FindReadsTable(es[1..], es[0].key);
      CoversIsSubmap(es[1..], fs);
      if i < |fs| {
        SizeOfEntry(fs, i);
        WellFormedAt(fs, i);
        EqualsIsSameValue(es[0].value, fs[i].value);
      }
      assert k !in DenoteEntries(es[1..]);
      SubmapExtends(DenoteEntries(es[1..]), k, Denote(es[0].value), DenoteEntries(fs));
    }
  }

  lemma SubmapExtends(m: map<Value, Value>, k: Value, v: Value, n: map<Value, Value>)
    requires k !in m
    ensures Submap(m[k := v], n) <==> Submap(m, n) && k in n && n[k] == v
  {
    var m' := m[k := v];
    if Submap(m', n) {
      assert k in m';
      forall j | j in m
        ensures j in n && m[j] == n[j]
      {
        assert j in m' && m'[j] == m[j];
      }
    }
  }

  lemma {:induction false} WellFormedAt(es: seq<Pair>, i: nat)
    requires WellFormedEntries(es) && i < |es|
    ensures WellFormedPair(es[i])
  {
    if i > 0 {
      WellFormedAt(es[1..], i - 1);
    }
  }

  /** Pairwise unequal keys denote as many table keys as there are entries. */
  lemma {:induction false} TableHasEveryEntry(es: seq<Pair>)
    requires WellFormedEntries(es)
    ensures |DenoteEntries(es)| == |es|
    decreases SizeEntries(es), 1, |es|
  {
    if es != [] {
      TableHasEveryEntry(es[1..]);
      FindReadsTable(es[1..], es[0].key);
    }
  }

  /** The counting argument: a table inside another with as many keys is that table. */
  lemma SubmapOfSameSize(m: map<Value, Value>, n: map<Value, Value>)
    ensures |m| == |n| && Submap(m, n) <==> m == n
  {
    if |m| == |n| && Submap(m, n) {
      assert m.Keys <= n.Keys;
      assert |n.Keys - m.Keys| == |n.Keys| - |m.Keys|;
      assert n.Keys - m.Keys == {};
    }
  }

  lemma MapsAreSameTable(es: seq<Pair>, fs: seq<Pair>)
    requires WellFormedEntries(es) && WellFormedEntries(fs)
    ensures |es| == |fs| && Covers(es, fs) <==> DenoteEntries(es) == DenoteEntries(fs)
    decreases SizeEntries(es) + SizeEntries(fs), 2
  {
    CoversIsSubmap(es, fs);
    TableHasEveryEntry(es);
    TableHasEveryEntry(fs);
    SubmapOfSameSize(DenoteEntries(es), DenoteEntries(fs));
  }

  /** On items whose maps hold pairwise unequal keys, equality is an equivalence. */
  lemma EqualsIsEquivalence(a: Item, b: Item, c: Item)
    requires WellFormed(a) && WellFormed(b) && WellFormed(c)
    ensures Equals(a, a)
    ensures Equals(a, b) ==> Equals(b, a)
    ensures Equals(a, b) && Equals(b, c) ==> Equals(a, c)
  {
    EqualsIsSameValue(a, a);
    EqualsIsSameValue(a, b);
    EqualsIsSameValue(b, a);
    EqualsIsSameValue(b, c);
    EqualsIsSameValue(a, c);
  }

  /** With a repeated key a map does not equal a copy of itself: the second entry reads the first one's value. */
  lemma RepeatedKeyBreaksReflexivity(k: Item, v: Item, w: Item)
    requires Equals(k, k) && !Equals(w, v)
    ensures !Equals(Map([Pair(k, v), Pair(k, w)]), Map([Pair(k, v), Pair(k, w)]))
  {
    var es := [Pair(k, v), Pair(k, w)];
    assert Find(es, k) == 0;
    assert es[1..] == [Pair(k, w)];
    assert !Covers(es[1..], es);
  }

  // ----- Repeated keys ------------------------------------------------------------------------

  /** The entry is found in the other map, with an equal value. */
  predicate Covered(e: Pair, fs: seq<Pair>) { Find(fs, e.key) < |fs| && Equals(e.value, fs[Find(fs, e.key)].value) }

  /** The entry loop, entry by entry. */
  lemma {:induction false} CoversEach(es: seq<Pair>, fs: seq<Pair>)
    ensures Covers(es, fs) <==> forall i :: 0 <= i < |es| ==> Covered(es[i], fs)
    decreases |es|
  {
    if es != [] {
      CoversEach(es[1..], fs);
      assert forall i :: 0 < i < |es| ==> es[i] == es[1..][i - 1];
      assert forall i :: 0 <= i < |es| - 1 ==> es[1..][i] == es[i + 1];
    }
  }

  /** The search stops at the first equal key. */
  lemma {:induction false} FindIsFirst(fs: seq<Pair>, key: Item, i: nat)
    requires i < |fs| && Equals(fs[i].key, key)
    ensures Find(fs, key) <= i && Equals(fs[Find(fs, key)].key, key)
  {
    if !Equals(fs[0].key, key) {
      FindIsFirst(fs[1..], key, i - 1);
    }
  }

  ghost predicate PairsWellFormed(es: seq<Pair>) {
    forall i :: 0 <= i < |es| ==> WellFormedPair(es[i])
  }

  lemma {:induction false} FindOfEqualKeys(fs: seq<Pair>, key: Item, key': Item)
    requires PairsWellFormed(fs) && WellFormed(key) && WellFormed(key') && Equals(key, key')
    ensures Find(fs, key) == Find(fs, key')
    decreases |fs|
  {
    if fs != [] {
      assert WellFormedPair(fs[0]);
      EqualsIsEquivalence(fs[0].key, key, key');
      EqualsIsEquivalence(key, key', key);
      EqualsIsEquivalence(fs[0].key, key', key);
      assert forall i :: 0 <= i < |fs| - 1 ==> fs[1..][i] == fs[i + 1];
      FindOfEqualKeys(fs[1..], key, key');
    }
  }

  /** Equal keys have equal values. */
  ghost predicate Consistent(es: seq<Pair>) {
    forall i, j :: 0 <= i < |es| && 0 <= j < |es| && Equals(es[i].key, es[j].key) ==> Equals(es[i].value, es[j].value)
  }

  lemma ConsistentCovers(es: seq<Pair>, i: nat)
    requires PairsWellFormed(es) && Consistent(es) && i < |es|
    ensures Covered(es[i], es)
  {
    assert WellFormedPair(es[i]);
    EqualsIsEquivalence(es[i].key, es[i].key, es[i].key);
    FindIsFirst(es, es[i].key, i);
    var f := Find(es, es[i].key);
    assert WellFormedPair(es[f]);
    EqualsIsEquivalence(es[f].key, es[i].key, es[i].key);
  }

  lemma CoveredIsConsistent(es: seq<Pair>, i: nat, j: nat)
    requires PairsWellFormed(es) && Covers(es, es) && i < |es| && j < |es| && Equals(es[i].key, es[j].key)
    ensures Equals(es[i].value, es[j].value)
  {
    CoversEach(es, es);
    assert Covered(es[i], es) && Covered(es[j], es);
    assert WellFormedPair(es[i]) && WellFormedPair(es[j]);
    FindOfEqualKeys(es, es[i].key, es[j].key);
    var f := Find(es, es[i].key);
    assert WellFormedPair(es[f]);
    EqualsIsEquivalence(es[j].value, es[f].value, es[f].value);
    EqualsIsEquivalence(es[i].value, es[f].value, es[j].value);
  }

  /** A map equals a copy of itself exactly when its equal keys have equal values. */
  lemma CopyIsEqualExactly(es: seq<Pair>)
    requires PairsWellFormed(es)
    ensures Equals(Map(es), Map(es)) <==> Consistent(es)
  {
    if Consistent(es) {
      forall i | 0 <= i < |es|
        ensures Covered(es[i], es)
      {
        ConsistentCovers(es, i);
      }
      CoversEach(es, es);
    }
    if Covers(es, es) {
      CoveredAreConsistent(es);
    }
  }

  lemma CoveredAreConsistent(es: seq<Pair>)
    requires PairsWellFormed(es) && Covers(es, es)
    ensures Consistent(es)
  {
    forall i, j | 0 <= i < |es| && 0 <= j < |es| && Equals(es[i].key, es[j].key)
      ensures Equals(es[i].value, es[j].value)
    {
      CoveredIsConsistent(es, i, j);
    }
  }

  /** Every key of one map is equal to a key of the other. */
  ghost predicate KeysWithin(fs: seq<Pair>, es: seq<Pair>) {
    forall j :: 0 <= j < |fs| ==> Find(es, fs[j].key) < |es|
  }

  /** When the left map is covered, a right entry is covered in return exactly when its key's first entry has its value. */
  lemma CoveredInReturn(es: seq<Pair>, fs: seq<Pair>, j: nat)
    requires PairsWellFormed(es) && PairsWellFormed(fs) && Covers(es, fs) && j < |fs| && Find(es, fs[j].key) < |es|
    ensures Covered(fs[j], es) <==> Covered(fs[j], fs)
  {
    var i := Find(es, fs[j].key);
    CoversEach(es, fs);
    assert Covered(es[i], fs);
    FoundKeyIsEqual(es, fs[j].key);
    assert WellFormedPair(es[i]) && WellFormedPair(fs[j]);
    FindOfEqualKeys(fs, es[i].key, fs[j].key);
    var f := Find(fs, fs[j].key);
    assert WellFormedPair(fs[f]);
    EqualsIsEquivalence(fs[j].value, es[i].value, fs[f].value);
    EqualsIsEquivalence(es[i].value, fs[f].value, fs[f].value);
    EqualsIsEquivalence(fs[j].value, fs[f].value, es[i].value);
  }

  /** If one map equals another, the other equals it exactly when it is consistent and has no key of its own. */
  lemma SymmetricExactly(es: seq<Pair>, fs: seq<Pair>)
    requires PairsWellFormed(es) && PairsWellFormed(fs) && Equals(Map(es), Map(fs))
    ensures Equals(Map(fs), Map(es)) <==> Consistent(fs) && KeysWithin(fs, es)
  {
    CopyIsEqualExactly(fs);
    CoversEach(fs, fs);
    CoversEach(fs, es);
    assert Covers(fs, es) ==> KeysWithin(fs, es) by {
      if Covers(fs, es) {
        forall j | 0 <= j < |fs|
          ensures Find(es, fs[j].key) < |es|
        {
          assert Covered(fs[j], es);
        }
      }
    }
    if KeysWithin(fs, es) {
      forall j | 0 <= j < |fs|
        ensures Covered(fs[j], es) <==> Covered(fs[j], fs)
      {
        CoveredInReturn(es, fs, j);
      }
    }
  }

  /** With a repeated key equality is not even symmetric: only the left map's entries are walked. */
  lemma RepeatedKeyBreaksSymmetry()
    ensures var twice, once := Map([Pair(Any, Any), Pair(Any, Any)]), Map([Pair(Any, Any), Pair(Boolean(true), Any)]);
            Equals(twice, once) && !Equals(once, twice)
  {
    var es, fs := [Pair(Any, Any), Pair(Any, Any)], [Pair(Any, Any), Pair(Boolean(true), Any)];
    assert Find(fs, Any) == 0;
    CoversEach(es, fs);
    assert es[1..] == [Pair(Any, Any)] && es[1..][1..] == [];
    assert Find(es[1..][1..], Boolean(true)) == 0;
    assert Find(es[1..], Boolean(true)) == 1;
    assert Find(es, Boolean(true)) == 2;
    CoversEach(fs, es);
    assert !Covered(fs[1], es);
  }

  // ----- Maps ---------------------------------------------------------------------------------

  /** `stack_item_map_get` on the entries of a map. */
  function Get(es: seq<Pair>, key: Item): Option<Item> {
    var i := Find(es, key);
    if i < |es| then Some(es[i].value) else None
  }

  /** `stack_item_map_set` on the entries of a map: replace in place, or append. */
  function Set(es: seq<Pair>, key: Item, value: Item): seq<Pair> {
    var i := Find(es, key);
    if i < |es| then es[i := Pair(es[i].key, value)] else es + [Pair(key, value)]
  }

  lemma {:induction false} FindAfterReplace(es: seq<Pair>, i: nat, value: Item, key: Item)
    requires i < |es|
    ensures Find(es[i := Pair(es[i].key, value)], key) == Find(es, key)
  {
    var es' := es[i := Pair(es[i].key, value)];
    if i == 0 {
      assert es'[1..] == es[1..];
    } else {
      assert es'[1..] == es[1..][i - 1 := Pair(es[i].key, value)];
      FindAfterReplace(es[1..], i - 1, value, key);
    }
  }

  lemma {:induction false} FindAfterAppend(es: seq<Pair>, e: Pair, key: Item)
    ensures Find(es + [e], key)
         == if Find(es, key) < |es| then Find(es, key) else if Equals(e.key, key) then |es| else |es| + 1
  {
    if es == [] {
      assert es + [e] == [e] && [e][1..] == [];
    } else {
      assert (es + [e])[1..] == es[1..] + [e];
      FindAfterAppend(es[1..], e, key);
    }
  }

  /** Equal keys stop the search at the same entry. */
  lemma {:induction false} FindRespectsEquality(es: seq<Pair>, key: Item, key': Item)
    requires WellFormedEntries(es) && WellFormed(key) && WellFormed(key') && Equals(key, key')
    ensures Find(es, key) == Find(es, key')
  {
    if es != [] {
      EqualsIsEquivalence(es[0].key, key, key');
      EqualsIsEquivalence(es[0].key, key', key);
      EqualsIsEquivalence(key, key', key);
      FindRespectsEquality(es[1..], key, key');
    }
  }

  lemma {:induction false} FoundKeyIsEqual(es: seq<Pair>, key: Item)
    requires Find(es, key) < |es|
    ensures Equals(es[Find(es, key)].key, key)
  {
    if !Equals(es[0].key, key) {
      FoundKeyIsEqual(es[1..], key);
    }
  }

  /** The first entry of either of two equal finds belongs to both keys. */
  lemma SameEntrySameKey(es: seq<Pair>, key: Item, key': Item)
    requires WellFormedEntries(es) && WellFormed(key) && WellFormed(key')
    requires Find(es, key) == Find(es, key') < |es|
    ensures Equals(key, key')
  {
    var i := Find(es, key);
    FoundKeyIsEqual(es, key);
    FoundKeyIsEqual(es, key');
    WellFormedAt(es, i);
    EqualsIsEquivalence(es[i].key, key, key);
    EqualsIsEquivalence(key, es[i].key, key');
  }

  /** Reading after writing: an equal key reads the new value, every other key what it read before. */
  lemma GetAfterSet(es: seq<Pair>, key: Item, value: Item, key': Item)
    requires WellFormedEntries(es) && WellFormed(key) && WellFormed(key')
    ensures Get(Set(es, key, value), key') == if Equals(key, key') then Some(value) else Get(es, key')
  {
    var i := Find(es, key);
    if Equals(key, key') {
      FindRespectsEquality(es, key, key');
    }
    if i < |es| {
      FindAfterReplace(es, i, value, key');
      if Find(es, key') == i {
        SameEntrySameKey(es, key, key');
      }
    } else {
      FindAfterAppend(es, Pair(key, value), key');
    }
  }

  lemma {:induction false} ReplaceKeepsWellFormed(es: seq<Pair>, i: nat, value: Item)
    requires WellFormedEntries(es) && i < |es| && WellFormed(value)
    ensures WellFormedEntries(es[i := Pair(es[i].key, value)])
  {
    var es' := es[i := Pair(es[i].key, value)];
    if i == 0 {
      assert es'[1..] == es[1..];
    } else {
      assert es'[1..] == es[1..][i - 1 := Pair(es[i].key, value)];
      ReplaceKeepsWellFormed(es[1..], i - 1, value);
      FindAfterReplace(es[1..], i - 1, value, es[0].key);
    }
  }

  lemma {:induction false} AppendKeepsWellFormed(es: seq<Pair>, e: Pair)
    requires WellFormedEntries(es) && WellFormedPair(e) && Find(es, e.key) == |es|
    ensures WellFormedEntries(es + [e])
  {
    if es == [] {
      assert es + [e] == [e] && [e][1..] == [];
    } else {
      assert (es + [e])[1..] == es[1..] + [e];
      AppendKeepsWellFormed(es[1..], e);
      FindAfterAppend(es[1..], e, es[0].key);
      EqualsIsEquivalence(e.key, es[0].key, e.key);
    }
  }

  /** A write keeps keys pairwise unequal, and adds at most one entry. */
  lemma SetKeepsWellFormed(es: seq<Pair>, key: Item, value: Item)
    requires WellFormedEntries(es) && WellFormed(key) && WellFormed(value)
    ensures WellFormedEntries(Set(es, key, value))
    ensures |Set(es, key, value)| == |es| + (if Get(es, key).None? then 1 else 0)
  {
    var i := Find(es, key);
    if i < |es| {
      ReplaceKeepsWellFormed(es, i, value);
    } else {
      AppendKeepsWellFormed(es, Pair(key, value));
    }
  }

  /** A write is an update of the table that the entries denote. */
  lemma SetUpdatesTable(es: seq<Pair>, key: Item, value: Item)
    requires WellFormedEntries(es) && WellFormed(key) && WellFormed(value)
    ensures DenoteEntries(Set(es, key, value)) == DenoteEntries(es)[Denote(key) := Denote(value)]
  {
    var i := Find(es, key);
    FindReadsTable(es, key);
    if i < |es| {
      FindReadsTable(es, key);
      TableAfterReplace(es, i, value);
    } else {
      TableAfterAppend(es, Pair(key, value));
    }
  }

  lemma {:induction false} TableAfterReplace(es: seq<Pair>, i: nat, value: Item)
    requires WellFormedEntries(es) && i < |es|
    ensures DenoteEntries(es[i := Pair(es[i].key, value)]) == DenoteEntries(es)[Denote(es[i].key) := Denote(value)]
  {
    var es' := es[i := Pair(es[i].key, value)];
    if i == 0 {
      assert es'[1..] == es[1..];
    } else {
      assert es'[1..] == es[1..][i - 1 := Pair(es[i].key, value)];
      TableAfterReplace(es[1..], i - 1, value);
      FindReadsTable(es[1..], es[0].key);
      TableHasKeyAt(es[1..], i - 1);
    }
  }

  lemma {:induction false} TableHasKeyAt(es: seq<Pair>, i: nat)
    requires i < |es|
    ensures Denote(es[i].key) in DenoteEntries(es)
  {
    if i > 0 {
      TableHasKeyAt(es[1..], i - 1);
    }
  }

  lemma {:induction false} TableAfterAppend(es: seq<Pair>, e: Pair)
    requires Denote(e.key) !in DenoteEntries(es)
    ensures DenoteEntries(es + [e]) == DenoteEntries(es)[Denote(e.key) := Denote(e.value)]
  {
    if es == [] {
      assert es + [e] == [e] && [e][1..] == [];
    } else {
      assert (es + [e])[1..] == es[1..] + [e];
      TableAfterAppend(es[1..], e);
    }
  }

  /** The entries of a new map after a run of writes. */
  function Build(writes: seq<Pair>): seq<Pair> {
    if writes == [] then []
    else
      var last := writes[|writes| - 1];
      Set(Build(writes[..|writes| - 1]), last.key, last.value)
  }

  /** The value of the last write whose key equals `key`. */
  function LastWrite(writes: seq<Pair>, key: Item): Option<Item> {
    if writes == [] then None
    else
      var last := writes[|writes| - 1];
      if Equals(last.key, key) then Some(last.value) else LastWrite(writes[..|writes| - 1], key)
  }

  /** Any run of writes leaves pairwise unequal keys, and every read returns the last write to an equal key. */
  lemma {:induction false} RunOfWrites(writes: seq<Pair>, key: Item)
    requires forall e :: e in writes ==> WellFormedPair(e)
    requires WellFormed(key)
    ensures WellFormedEntries(Build(writes))
    ensures Get(Build(writes), key) == LastWrite(writes, key)
  {
    if writes != [] {
      var before, last := writes[..|writes| - 1], writes[|writes| - 1];
      assert last in writes;
      RunOfWrites(before, key);
      SetKeepsWellFormed(Build(before), last.key, last.value);
      GetAfterSet(Build(before), last.key, last.value, key);
    }
  }

  // ----- Integers -----------------------------------------------------------------------------

  const INT64_LIMIT: int := 0x8000_0000_0000_0000

  lemma {:induction false} FromLittleSnoc(bytes: seq<Byte>, b: Byte)
    ensures FromLittle(bytes + [b]) == FromLittle(bytes) + Pow256(|bytes|) * b
  {
    if bytes == [] {
      assert bytes + [b] == [b] && [b][1..] == [];
    } else {
      assert (bytes + [b])[1..] == bytes[1..] + [b];
      FromLittleSnoc(bytes[1..], b);
    }
  }

  /** No leading zero byte, except for the one byte of zero. */
  predicate Trimmed(bytes: seq<Byte>) {
    bytes != [] && (|bytes| > 1 ==> bytes[|bytes| - 1] != 0)
  }

  /** The value of an Integer item; other items have none. */
  function IntegerOf(a: Item): Option<int> {
    if a.Integer? then Some(if a.negative then -(FromLittle(a.magnitude) as int) else FromLittle(a.magnitude)) else None
  }

  /** The 64-bit number that two's complement arithmetic gives for `n`. */
  function Wrap64(n: int): (r: int)
    ensures -INT64_LIMIT <= r < INT64_LIMIT
  {
    (n + INT64_LIMIT) % (2 * INT64_LIMIT) - INT64_LIMIT
  }

  /** `(uint64_t)(value < 0 ? -value : value)`; the minimum is negated to itself, and then converted. */
  function Magnitude(value: int): (m: nat)
    requires -INT64_LIMIT <= value < INT64_LIMIT
    ensures m == if value < 0 then -value else value
  {
    (if value < 0 then Wrap64(-value) else value) % (2 * INT64_LIMIT)
  }

  /** The eight bytes of a magnitude, least significant first. */
  method EightBytes(magnitude: nat) returns (bytes: seq<Byte>)
    requires magnitude <= INT64_LIMIT
    ensures |bytes| == 8 && FromLittle(bytes) == magnitude
  {
    var rest := magnitude;
    bytes := [];
    for i := 0 to 8
      invariant |bytes| == i && magnitude == FromLittle(bytes) + Pow256(i) * rest
    {
      FromLittleSnoc(bytes, rest % 256);
      SplitDigit(Pow256(i), rest);
      bytes, rest := bytes + [rest % 256], rest / 256;
    }
    EightBytesSuffice(magnitude, FromLittle(bytes), rest);
  }

  /** `stack_item_create_integer`. */
  method CreateInteger(value: int) returns (item: Item)
    requires -INT64_LIMIT <= value < INT64_LIMIT
    ensures item.Integer? && IntegerOf(item) == Some(value)
    ensures item.negative == (value < 0)
    ensures Trimmed(item.magnitude) && |item.magnitude| <= 8
  {
    var bytes := EightBytes(Magnitude(value));
    var size := 8;
    assert bytes[..8] == bytes;
    while size > 1 && bytes[size - 1] == 0
      invariant 1 <= size <= 8
      invariant FromLittle(bytes[..size]) == Magnitude(value)
    {
      assert bytes[..size] == bytes[..size - 1] + [bytes[size - 1]];
      FromLittleSnoc(bytes[..size - 1], 0);
      size := size - 1;
    }
    item := Integer(bytes[..size], value < 0);
  }

  lemma SplitDigit(p: nat, rest: nat)
    ensures p * rest == p * (rest % 256) + 256 * p * (rest / 256)
  {
    assert rest == rest % 256 + 256 * (rest / 256);
  }

  lemma EightBytesSuffice(abs: nat, low: nat, rest: nat)
    requires abs <= INT64_LIMIT && abs == low + Pow256(8) * rest
    ensures rest == 0
  {
    assert Pow256(4) == 0x1_0000_0000;
    assert Pow256(8) == 0x1_0000_0000_0000_0000;
  }

  /** `stack_item_to_integer`; a value that does not fit is wrapped as in two's complement arithmetic. */
  method ToInteger(item: Item) returns (r: Result<int>)
    ensures !item.Integer? ==> r == Err(InvalidType)
    ensures item.Integer? && |item.magnitude| > 8 ==> r == Err(Overflow)
    ensures item.Integer? && |item.magnitude| <= 8 ==> r == Ok(Wrap64(IntegerOf(item).value))
  {
    if !item.Integer? {
      return Err(InvalidType);
    }
    if |item.magnitude| > 8 {
      return Err(Overflow);
    }
    var result: int, weight: int := 0, 1;
    for i := 0 to |item.magnitude|
      invariant weight == Pow256(i)
      invariant result == FromLittle(item.magnitude[..i])
    {
      assert item.magnitude[..i + 1] == item.magnitude[..i] + [item.magnitude[i]];
      FromLittleSnoc(item.magnitude[..i], item.magnitude[i]);
      result := result + weight * item.magnitude[i];
      weight := 256 * weight;
    }
    assert item.magnitude[..|item.magnitude|] == item.magnitude;
    result := Wrap64(result);
    WrapNegates(FromLittle(item.magnitude));
    return Ok(if item.negative then Wrap64(-result) else result);
  }

  lemma WrapNegates(n: int)
    ensures Wrap64(-Wrap64(n)) == Wrap64(-n)
  {
  }

  /** Every 64-bit integer is read back from the item created for it. */
  method IntegerRoundTrip(value: int) returns (r: Result<int>)
    requires -INT64_LIMIT <= value < INT64_LIMIT
    ensures r == Ok(value)
  {
    var item := CreateInteger(value);
    r := ToInteger(item);
  }

  lemma {:induction false} TrimmedSpellingIsUnique(a: seq<Byte>, b: seq<Byte>)
    requires Trimmed(a) && Trimmed(b) && FromLittle(a) == FromLittle(b)
    ensures a == b
  {
    assert a[0] == b[0] && FromLittle(a[1..]) == FromLittle(b[1..]);
    if |a| == 1 || |b| == 1 {
      if |a| > 1 { TrimmedIsPositive(a[1..]); }
      if |b| > 1 { TrimmedIsPositive(b[1..]); }
    } else {
      TrimmedSpellingIsUnique(a[1..], b[1..]);
    }
    assert a == [a[0]] + a[1..] && b == [b[0]] + b[1..];
  }

  lemma {:induction false} TrimmedIsPositive(a: seq<Byte>)
    requires a != [] && a[|a| - 1] != 0
    ensures FromLittle(a) > 0
  {
    if |a| > 1 {
      TrimmedIsPositive(a[1..]);
    }
  }

  /** Integer items with trimmed magnitudes and no negative zero are equal exactly when they have the same value. */
  lemma IntegersEqualByValue(a: Item, b: Item)
    requires a.Integer? && b.Integer? && Trimmed(a.magnitude) && Trimmed(b.magnitude)
    requires a.negative == (IntegerOf(a).value < 0) && b.negative == (IntegerOf(b).value < 0)
    ensures Equals(a, b) <==> IntegerOf(a) == IntegerOf(b)
  {
    if IntegerOf(a) == IntegerOf(b) {
      TrimmedSpellingIsUnique(a.magnitude, b.magnitude);
    }
  }
}
