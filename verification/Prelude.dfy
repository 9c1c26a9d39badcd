/** Vocabulary shared by every component: bytes, results, and sums over sequences. */
module Prelude {

  type Byte = x: int | 0 <= x < 256

  datatype Option<+T> = None | Some(value: T)

  /** The error codes that the modelled functions return. */
  datatype Error =
    | InvalidArgument
    | InvalidFormat
    | InvalidLength
    | InvalidSize
    | InvalidState
    | InvalidType
    | NotFound
    | NotSupported
    | EndOfStream
    | BufferTooSmall
    | OutOfMemory
    | Overflow
    | Crypto

  datatype Result<+T> = Ok(value: T) | Err(error: Error) {
    predicate IsFailure() { Err? }

    function PropagateFailure<U>(): Result<U>
      requires Err?
    {
      Err(error)
    }

    function Extract(): T
      requires Ok?
    {
      value
    }
  }

  /** SHA-256 is any function to 32 bytes. */
  ghost predicate Digest(sha: seq<Byte> -> seq<Byte>) {
    forall data :: |sha(data)| == 32
  }

  /** The sum of `f` over the elements of `xs`. */
  function Sum<T>(xs: seq<T>, f: T -> int): int {
    if xs == [] then 0 else f(xs[0]) + Sum(xs[1..], f)
  }

  lemma {:induction false} SumConcat<T>(xs: seq<T>, ys: seq<T>, f: T -> int)
    ensures Sum(xs + ys, f) == Sum(xs, f) + Sum(ys, f)
  {
    if xs == [] {
      assert xs + ys == ys;
    } else {
      assert (xs + ys)[1..] == xs[1..] + ys;
      SumConcat(xs[1..], ys, f);
    }
  }

  lemma {:induction false} SumUpdate<T>(xs: seq<T>, i: nat, x: T, f: T -> int)
    requires i < |xs|
    ensures Sum(xs[i := x], f) == Sum(xs, f) - f(xs[i]) + f(x)
  {
    if i == 0 {
      assert xs[0 := x][1..] == xs[1..];
    } else {
      assert xs[i := x][1..] == xs[1..][i - 1 := x];
      SumUpdate(xs[1..], i - 1, x, f);
    }
  }

  lemma SumFirst<T>(x: T, xs: seq<T>, f: T -> int)
    ensures Sum([x] + xs, f) == f(x) + Sum(xs, f)
  {
    assert ([x] + xs)[1..] == xs;
  }

  lemma SumBetween<T>(before: seq<T>, x: T, after: seq<T>, f: T -> int)
    ensures Sum(before + ([x] + after), f) == Sum(before + after, f) + f(x)
  {
    SumFirst(x, after, f);
    SumConcat(before, [x] + after, f);
    SumConcat(before, after, f);
  }

  /** Removing one element lowers a sum by exactly that element's share. */
  lemma SumRemove<T>(xs: seq<T>, i: nat, f: T -> int)
    requires i < |xs|
    ensures Sum(xs, f) == Sum(xs[..i] + xs[i + 1..], f) + f(xs[i])
  {
    assert xs == xs[..i] + ([xs[i]] + xs[i + 1..]);
    SumBetween(xs[..i], xs[i], xs[i + 1..], f);
  }

  lemma {:induction false} SumZero<T>(xs: seq<T>, f: T -> int)
    requires forall x :: x in xs ==> f(x) == 0
    ensures Sum(xs, f) == 0
  {
    if xs != [] {
      SumZero(xs[1..], f);
    }
  }

  lemma {:induction false} SumNonNegative<T>(xs: seq<T>, f: T -> int)
    requires forall x :: x in xs ==> f(x) >= 0
    ensures Sum(xs, f) >= 0
  {
    if xs != [] {
      SumNonNegative(xs[1..], f);
    }
  }

  /** Runs `step` over `xs` from state `s`, the shape of every hashing loop. */
  function Fold<S, X>(step: (S, X) -> S, s: S, xs: seq<X>): S
    decreases |xs|
  {
    if xs == [] then s else Fold(step, step(s, xs[0]), xs[1..])
  }

  lemma {:induction false} FoldConcat<S, X>(step: (S, X) -> S, s: S, xs: seq<X>, ys: seq<X>)
    ensures Fold(step, s, xs + ys) == Fold(step, Fold(step, s, xs), ys)
    decreases |xs|
  {
    if xs == [] {
      assert xs + ys == ys;
    } else {
      assert (xs + ys)[1..] == xs[1..] + ys;
      FoldConcat(step, step(s, xs[0]), xs[1..], ys);
    }
  }

  lemma FoldNext<S, X>(step: (S, X) -> S, s: S, xs: seq<X>, i: nat)
    requires i < |xs|
    ensures Fold(step, s, xs[..i + 1]) == step(Fold(step, s, xs[..i]), xs[i])
  {
    assert xs[..i + 1] == xs[..i] + [xs[i]];
    FoldConcat(step, s, xs[..i], [xs[i]]);
    assert [xs[i]][1..] == [];
  }

  /** What holds at the start and is kept by every step holds at the end. */
  lemma {:induction false} FoldKeeps<S(!new), X>(step: (S, X) -> S, s: S, xs: seq<X>, i: nat, inv: (S, nat) -> bool)
    requires i <= |xs| && inv(s, i)
    requires forall r, j {:trigger inv(r, j)} :: i <= j < |xs| && inv(r, j) ==> inv(step(r, xs[j]), j + 1)
    ensures inv(Fold(step, s, xs[i..]), |xs|)
    decreases |xs| - i
  {
    if i < |xs| {
      assert xs[i..][1..] == xs[i + 1..];
      FoldKeeps(step, step(s, xs[i]), xs, i + 1, inv);
    }
  }

  ghost predicate StepInjective<S(!new), X(!new)>(step: (S, X) -> S) {
    forall a, b, x {:trigger step(a, x), step(b, x)} :: step(a, x) == step(b, x) ==> a == b
  }

  /** If no single step merges two states, no run over the same input does. */
  lemma {:induction false} FoldInjective<S(!new), X(!new)>(step: (S, X) -> S, s: S, s': S, xs: seq<X>)
    requires StepInjective(step) && Fold(step, s, xs) == Fold(step, s', xs)
    ensures s == s'
    decreases |xs|
  {
    if xs != [] {
      FoldInjective(step, step(s, xs[0]), step(s', xs[0]), xs[1..]);
    }
  }

  /** Two runs whose inputs differ in one place meet at the end only if they meet right after that place. */
  lemma FoldOneDiffers<S(!new), X(!new)>(step: (S, X) -> S, s: S, p: seq<X>, x: X, x': X, q: seq<X>)
    requires StepInjective(step) && Fold(step, s, p + [x] + q) == Fold(step, s, p + [x'] + q)
    ensures step(Fold(step, s, p), x) == step(Fold(step, s, p), x')
  {
    FoldConcat(step, s, p + [x], q);
    FoldConcat(step, s, p + [x'], q);
    FoldConcat(step, s, p, [x]);
    FoldConcat(step, s, p, [x']);
    assert [x][1..] == [] && [x'][1..] == [];
    FoldInjective(step, step(Fold(step, s, p), x), step(Fold(step, s, p), x'), q);
  }

  ghost predicate Injective<A(!new), B(!new)>(f: A -> B) {
    forall a, b {:trigger f(a), f(b)} :: f(a) == f(b) ==> a == b
  }
}
