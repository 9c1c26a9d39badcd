/** How a key comes to be repeated in a map: a run of calls that the stack items of `src/protocol/stack_item.c` permit. */
module StackExample {
  import opened Prelude
  import opened StackHeap
  import opened StackUnfold
  import opened StackValues

  /** A map with the keys `[]` and `[null]`, at which point `null` is appended to the first key. */
  const BUILD: seq<Op> := [
    Create(Mapping, 0), Create(Sequence(false), 0), Create(Sequence(false), 0), Create(Leaf(Any), 0),
    Create(Leaf(Boolean(true)), 0), Add(2, 3, true), Put(0, 1, 3, None, true), Put(0, 2, 4, None, true), Add(1, 3, true)]

  /** The heap of the run, with the given counts and references. */
  function BuiltHeap(c1: nat, c2: nat, c3: nat, c4: nat, m: seq<Addr>, k1: seq<Addr>, k2: seq<Addr>): Heap {
    [Live(1, Mapping, m, 16), Live(c1, Sequence(false), k1, 16), Live(c2, Sequence(false), k2, 16),
     Live(c3, Leaf(Any), [], 16), Live(c4, Leaf(Boolean(true)), [], 16)]
  }

  const ALL_ROOTS: multiset<Addr> := multiset{0, 1, 2, 3, 4}

  /** The state after the first `n` calls. */
  function StateAfter(n: nat): State
    requires n <= 9
  {
    if n == 0 then State([], multiset{}) else Step(StateAfter(n - 1), BUILD[n - 1])
  }

  lemma CreateIs(h: Heap, roots: multiset<Addr>, kind: Kind)
    ensures Step(State(h, roots), Create(kind, 0)) == State(h + [Live(1, kind, [], 16)], roots + multiset{|h|})
  {
  }

  lemma FirstThree()
    ensures StateAfter(3).roots == multiset{0, 1, 2}
    ensures StateAfter(3).heap == [Live(1, Mapping, [], 16), Live(1, Sequence(false), [], 16), Live(1, Sequence(false), [], 16)]
  {
    var m, k := Live(1, Mapping, [], 16), Live(1, Sequence(false), [], 16);
    CreateIs([], multiset{}, Mapping);
    assert StateAfter(1) == State([m], multiset{0});
    CreateIs([m], multiset{0}, Sequence(false));
    assert StateAfter(2) == State([m, k], multiset{0, 1});
    CreateIs([m, k], multiset{0, 1}, Sequence(false));
    assert StateAfter(3) == State([m, k, k], multiset{0, 1, 2});
  }

  lemma AllCreated()
    ensures StateAfter(5) == S5
  {
    FirstThree();
    var h, a, t := StateAfter(3).heap, Live(1, Leaf(Any), [], 16), Live(1, Leaf(Boolean(true)), [], 16);
    CreateIs(h, multiset{0, 1, 2}, Leaf(Any));
    assert StateAfter(4) == State(h + [a], multiset{0, 1, 2, 3});
    CreateIs(h + [a], multiset{0, 1, 2, 3}, Leaf(Boolean(true)));
    assert h + [a] + [t] == BuiltHeap(1, 1, 1, 1, [], [], []);
  }

  const S5: State := State(BuiltHeap(1, 1, 1, 1, [], [], []), ALL_ROOTS)
  const S6: State := State(BuiltHeap(1, 1, 2, 1, [], [], [3]), ALL_ROOTS)
  const S7: State := State(BuiltHeap(2, 1, 3, 1, [1, 3], [], [3]), ALL_ROOTS)
  const S8: State := State(BuiltHeap(2, 2, 3, 2, [1, 3, 2, 4], [], [3]), ALL_ROOTS)
  const S9: State := State(BuiltHeap(2, 2, 4, 2, [1, 3, 2, 4], [3], [3]), ALL_ROOTS)

  lemma FillKey()
    ensures Allowed(S5, BUILD[5]) && Step(S5, BUILD[5]) == S6
  {
    var h := S5.heap;
    assert Rewired(Retain(h, 3), 2, [3], 16) == S6.heap;
    assert h[2].refs + [3] == [3];
  }

  lemma PutFirst()
    ensures Allowed(S6, BUILD[6]) && Step(S6, BUILD[6]) == S7
  {
    var h := S6.heap;
    assert h[0].refs + [1, 3] == [1, 3];
    assert Rewired(Retain(Retain(h, 1), 3), 0, [1, 3], 16) == S7.heap;
  }

  lemma PutSecond()
    ensures Allowed(S7, BUILD[7]) && Step(S7, BUILD[7]) == S8
  {
    var h := S7.heap;
    assert h[0].refs + [2, 4] == [1, 3, 2, 4];
    assert Rewired(Retain(Retain(h, 2), 4), 0, [1, 3, 2, 4], 16) == S8.heap;
  }

  lemma GrowKey()
    ensures Allowed(S8, BUILD[8]) && Step(S8, BUILD[8]) == S9
  {
    var h := S8.heap;
    assert h[1].refs + [3] == [3];
    assert Rewired(Retain(h, 3), 1, [3], 16) == S9.heap;
  }

  lemma BuildGoesOn(states: seq<State>, n: nat, s: State)
    requires n < 9 && Run(states, BUILD[..n]) && Allowed(states[n], BUILD[n]) && s == Step(states[n], BUILD[n])
    ensures Run(states + [s], BUILD[..n + 1]) && (states + [s])[n + 1] == s
  {
    RunGoesOn(states, BUILD[..n], BUILD[n], s);
    assert BUILD[..n + 1] == BUILD[..n] + [BUILD[n]];
  }

  lemma {:induction false} CreateRuns(n: nat) returns (states: seq<State>)
    requires n <= 5
    ensures Run(states, BUILD[..n]) && states[n] == StateAfter(n)
  {
    if n == 0 {
      states := [StateAfter(0)];
    } else {
      var before := CreateRuns(n - 1);
      BuildGoesOn(before, n - 1, StateAfter(n));
      states := before + [StateAfter(n)];
    }
  }

  lemma FillRuns() returns (states: seq<State>)
    ensures Run(states, BUILD[..6]) && states[6] == S6
  {
    AllCreated();
    var before := CreateRuns(5);
    FillKey();
    BuildGoesOn(before, 5, S6);
    states := before + [S6];
  }

  lemma PutRuns() returns (states: seq<State>)
    ensures Run(states, BUILD[..7]) && states[7] == S7
  {
    var before := FillRuns();
    PutFirst();
    BuildGoesOn(before, 6, S7);
    states := before + [S7];
  }

  lemma PutAgainRuns() returns (states: seq<State>)
    ensures Run(states, BUILD[..8]) && states[8] == S8
  {
    var before := PutRuns();
    PutSecond();
    BuildGoesOn(before, 7, S8);
    states := before + [S8];
  }

  lemma BuildRuns() returns (states: seq<State>)
    ensures Run(states, BUILD) && states[|BUILD|] == S9
  {
    var before := PutAgainRuns();
    GrowKey();
    BuildGoesOn(before, 8, S9);
    states := before + [S9];
    assert BUILD[..9] == BUILD;
  }

  /** In the end both entries have the key `[null]`, and different values. */
  lemma RepeatedKeyIsSpelled()
    ensures Spells(S9.heap, 0, Map([Pair(Array([Any]), Any), Pair(Array([Any]), Boolean(true))]))
  {
    var h, es := S9.heap, [Pair(Array([Any]), Any), Pair(Array([Any]), Boolean(true))];
    assert Spells(h, 3, Any) && Spells(h, 4, Boolean(true));
    assert SpellsAll(h, [3], [Any]) by {
      assert [3][1..] == [] && [Any][1..] == [];
    }
    assert Spells(h, 1, Array([Any])) && Spells(h, 2, Array([Any]));
    assert SpellsPair(h, h[0].refs, 0, es[0]) && SpellsPair(h, h[0].refs, 1, es[1]);
    SpellsEach(h, h[0].refs, es);
  }

  /** The searches of the two writes rightly find nothing: the keys differ when they are put in. */
  lemma KeysDiffered()
    ensures Hit([], Array([])) == None && Hit([Pair(Array([]), Any)], Array([Any])) == None
  {
    var es := [Pair(Array([]), Any)];
    assert !Equals(Array([]), Array([Any]));
    assert es[1..] == [] && Find(es[1..], Array([Any])) == 0;
  }

  /**
   * Calls that the source permits lead to a map with a repeated key, because a key can change after it is put in; the
   * map that results is not equal to a copy of itself.
   */
  lemma RepeatedKeyArises() returns (states: seq<State>)
    ensures Run(states, BUILD)
    ensures Hit([], Array([])) == None && Hit([Pair(Array([]), Any)], Array([Any])) == None
    ensures var m := Map([Pair(Array([Any]), Any), Pair(Array([Any]), Boolean(true))]);
            Spells(states[|BUILD|].heap, 0, m) && !Equals(m, m)
  {
    states := BuildRuns();
    KeysDiffered();
    RepeatedKeyIsSpelled();
    var k := Array([Any]);
    assert WellFormedAll([Any][1..]);
    EqualsIsEquivalence(k, k, k);
    RepeatedKeyBreaksReflexivity(k, Any, Boolean(true));
  }
}
