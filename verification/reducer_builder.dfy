/**
 * `ReducerBuilder`: combining reducers into one that runs each in turn on the same state and
 * merges their effects.
 *
 * An effect is the sequence of tokens it will run: `.none` is the empty sequence and
 * `merge(with:)` is concatenation. Reducers the builder does not look inside are `Leaf`s, a
 * function from the state and the action to the new state and an effect.
 */
module ReducerBuilder {
  import opened Wrappers

  datatype Reducer<!S, !A, E> =
    | Leaf(reduce: (S, A) -> (S, seq<E>))
    | Empty
    | Sequence(r0: Reducer<S, A, E>, r1: Reducer<S, A, E>)
    | SequenceMany(reducers: seq<Reducer<S, A, E>>)
    | First(first: Reducer<S, A, E>)
    | Second(second: Reducer<S, A, E>)

  /** `Effect.merge(with:)`: the merged effect runs every token of both. */
  function Merge<E>(e0: seq<E>, e1: seq<E>): (e: seq<E>)
    ensures multiset(e) == multiset(e0) + multiset(e1)
    ensures |e| == |e0| + |e1|
  {
    e0 + e1
  }

  /**
   * `reduce(into:action:)` as a function: the state after the reducer has run, and its effect.
   * `EmptyReducer` leaves the state alone and returns `.none`; `_Sequence` runs `r0` and then
   * `r1` on what `r0` left; `_SequenceMany` folds its array; `_Conditional` runs its one branch.
   */
  function Run<S, A, E>(r: Reducer<S, A, E>, state: S, action: A): (S, seq<E>)
    decreases r
  {
    match r
    case Leaf(reduce) => reduce(state, action)
    case Empty => (state, [])
    case Sequence(r0, r1) =>
      var (s0, e0) := Run(r0, state, action);
      var (s1, e1) := Run(r1, s0, action);
      (s1, Merge(e0, e1))
    case SequenceMany(reducers) => RunAll(reducers, state, action)
    case First(first) => Run(first, state, action)
    case Second(second) => Run(second, state, action)
  }

  /** `reducers.reduce(.none) { $0.merge(with: $1.reduce(into: &state, action: action)) }`. */
  function RunAll<S, A, E>(reducers: seq<Reducer<S, A, E>>, state: S, action: A): (S, seq<E>)
    decreases reducers
  {
    if reducers == [] then (state, [])
    else
      var (s0, e0) := RunAll(reducers[..|reducers| - 1], state, action);
      var (s1, e1) := Run(reducers[|reducers| - 1], s0, action);
      (s1, Merge(e0, e1))
  }

  /**
   * `reduce(into:action:)` in place, as `_Conditional.reduce`, `_Sequence.reduce` and
   * `_SequenceMany.reduce` do it: one `inout` state threaded through every child, and
   * `_SequenceMany` looping over its array from `.none`.
   */
  method Reduce<S, A, E>(r: Reducer<S, A, E>, state: S, action: A) returns (newState: S, effect: seq<E>)
    ensures (newState, effect) == Run(r, state, action)
    decreases r
  {
    match r {
      case Leaf(reduce) =>
        newState, effect := reduce(state, action).0, reduce(state, action).1;
      case Empty =>
        newState, effect := state, [];
      case Sequence(r0, r1) =>
        var e0, e1;
        newState, e0 := Reduce(r0, state, action);
        newState, e1 := Reduce(r1, newState, action);
        effect := Merge(e0, e1);
      case SequenceMany(reducers) =>
        newState, effect := state, [];
        var i := 0;
        while i < |reducers|
          invariant 0 <= i <= |reducers|
          invariant (newState, effect) == RunAll(reducers[..i], state, action)
        {
          var e;
          newState, e := Reduce(reducers[i], newState, action);
          effect := Merge(effect, e);
          assert reducers[..i + 1][..i] == reducers[..i];
          i := i + 1;
        }
        assert reducers[..|reducers|] == reducers;
      case First(first) =>
        newState, effect := Reduce(first, state, action);
      case Second(second) =>
        newState, effect := Reduce(second, state, action);
    }
  }

  // The builder functions.

  /** `buildArray(_:)`: the array's reducers run in order, each on the state the previous one left. */
  function BuildArray<S(!new), A(!new), E>(reducers: seq<Reducer<S, A, E>>): (r: Reducer<S, A, E>)
    ensures forall state: S, action: A :: Run(r, state, action) == RunAll(reducers, state, action)
  {
    SequenceMany(reducers)
  }

  /** `buildBlock()`: an `EmptyReducer`, which leaves the state alone and returns `.none`. */
  function BuildEmptyBlock<S(!new), A(!new), E>(): (r: Reducer<S, A, E>)
    ensures forall state: S, action: A :: Run(r, state, action) == (state, [])
  {
    Empty
  }

  /** `buildBlock(r0, ..., rk)`: `_Sequence`s nested to the left; one argument is returned as is. */
  function BuildBlock<S, A, E>(reducers: seq<Reducer<S, A, E>>): Reducer<S, A, E>
    requires |reducers| >= 1
  {
    if |reducers| == 1 then reducers[0]
    else Sequence(BuildBlock(reducers[..|reducers| - 1]), reducers[|reducers| - 1])
  }

  function BuildEitherFirst<S, A, E>(r: Reducer<S, A, E>): Reducer<S, A, E>
  {
    First(r)
  }

  function BuildEitherSecond<S, A, E>(r: Reducer<S, A, E>): Reducer<S, A, E>
  {
    Second(r)
  }

  function BuildExpression<S, A, E>(r: Reducer<S, A, E>): Reducer<S, A, E>
  {
    r
  }

  function BuildFinalResult<S, A, E>(r: Reducer<S, A, E>): Reducer<S, A, E>
  {
    r
  }

  function BuildOptional<S, A, E>(wrapped: Option<Reducer<S, A, E>>): Option<Reducer<S, A, E>>
  {
    wrapped
  }

  function BuildPartialBlockFirst<S, A, E>(first: Reducer<S, A, E>): Reducer<S, A, E>
  {
    first
  }

  function BuildPartialBlock<S, A, E>(accumulated: Reducer<S, A, E>, next: Reducer<S, A, E>): Reducer<S, A, E>
  {
    Sequence(accumulated, next)
  }

  /**
   * How a block is built one component at a time: `buildPartialBlock(first:)` on the first,
   * then `buildPartialBlock(accumulated:next:)` with each later one.
   */
  function BuildPartially<S, A, E>(accumulated: Reducer<S, A, E>, rest: seq<Reducer<S, A, E>>): Reducer<S, A, E>
    decreases |rest|
  {
    if rest == [] then accumulated
    else BuildPartially(BuildPartialBlock(accumulated, rest[0]), rest[1..])
  }

  // What the builders promise.

  /** `_Sequence`: `r1` starts from the state `r0` left, and the effect holds every token of both. */
  lemma SequenceThreadsState<S, A, E>(r0: Reducer<S, A, E>, r1: Reducer<S, A, E>, state: S, action: A)
    ensures Run(Sequence(r0, r1), state, action).0 == Run(r1, Run(r0, state, action).0, action).0
    ensures Run(Sequence(r0, r1), state, action).1
         == Run(r0, state, action).1 + Run(r1, Run(r0, state, action).0, action).1
    ensures multiset(Run(Sequence(r0, r1), state, action).1)
         == multiset(Run(r0, state, action).1) + multiset(Run(r1, Run(r0, state, action).0, action).1)
  {
  }

  /** `_SequenceMany([])` returns `.none` and leaves the state as it was. */
  lemma EmptyManyDoesNothing<S(!new), A(!new), E>(state: S, action: A)
    ensures Run(Reducer<S, A, E>.SequenceMany([]), state, action) == (state, [])
    ensures Run(BuildArray<S, A, E>([]), state, action) == Run(BuildEmptyBlock<S, A, E>(), state, action)
  {
  }

  /** Splitting a `_SequenceMany` array in two is running the two halves in sequence. */
  lemma {:induction false} ManyAppend<S, A, E>(xs: seq<Reducer<S, A, E>>, ys: seq<Reducer<S, A, E>>, state: S, action: A)
    ensures Run(SequenceMany(xs + ys), state, action) == Run(Sequence(SequenceMany(xs), SequenceMany(ys)), state, action)
    decreases |ys|
  {
    if ys == [] {
      assert xs + ys == xs;
      var (a, ea) := RunAll(xs, state, action);
      assert RunAll(ys, a, action) == (a, []);
      assert ea + [] == ea;
    } else {
      var n := |ys| - 1;
      var zs := xs + ys;
      assert zs[..|zs| - 1] == xs + ys[..n];
      assert zs[|zs| - 1] == ys[n];
      ManyAppend(xs, ys[..n], state, action);
      var (a, ea) := RunAll(xs, state, action);
      var (b, eb) := RunAll(ys[..n], a, action);
      var (c, ec) := Run(ys[n], b, action);
      assert RunAll(zs[..|zs| - 1], state, action) == (b, ea + eb);
      assert RunAll(zs, state, action) == (c, ea + eb + ec);
      assert RunAll(ys, a, action) == (c, eb + ec);
      assert Run(Sequence(SequenceMany(xs), SequenceMany(ys)), state, action) == (c, ea + (eb + ec));
      assert ea + eb + ec == ea + (eb + ec);
    }
  }

  /** `buildEither(first:)` and `buildEither(second:)` behave exactly like the reducer they wrap. */
  lemma EitherRunsItsBranch<S, A, E>(r: Reducer<S, A, E>, state: S, action: A)
    ensures Run(BuildEitherFirst(r), state, action) == Run(r, state, action)
    ensures Run(BuildEitherSecond(r), state, action) == Run(r, state, action)
  {
  }

  /** The pass-through builders return their argument. */
  lemma PassThroughBuilders<S, A, E>(r: Reducer<S, A, E>, wrapped: Option<Reducer<S, A, E>>)
    ensures BuildBlock([r]) == r && BuildExpression(r) == r && BuildFinalResult(r) == r
    ensures BuildPartialBlockFirst(r) == r && BuildOptional(wrapped) == wrapped
  {
  }

  /** `buildBlock(r0, ..., rk)` runs `r0` to `rk` in order, exactly as `_SequenceMany` over them. */
  lemma {:induction false} BlockRunsLikeMany<S, A, E>(reducers: seq<Reducer<S, A, E>>, state: S, action: A)
    requires |reducers| >= 1
    ensures Run(BuildBlock(reducers), state, action) == Run(SequenceMany(reducers), state, action)
    decreases |reducers|
  {
    var n := |reducers| - 1;
    if n == 0 {
      assert reducers[..0] == [];
      var (s0, e0) := Run(reducers[0], state, action);
      assert RunAll(reducers, state, action) == (s0, [] + e0);
      assert [] + e0 == e0;
    } else {
      BlockRunsLikeMany(reducers[..n], state, action);
    }
  }

  /** Building a block component by component with `buildPartialBlock` gives `buildBlock`'s nesting. */
  lemma {:induction false} PartialBlocksNestLikeBlock<S, A, E>(done: seq<Reducer<S, A, E>>, rest: seq<Reducer<S, A, E>>)
    requires |done| >= 1
    ensures BuildPartially(BuildBlock(done), rest) == BuildBlock(done + rest)
    decreases |rest|
  {
    if rest == [] {
      assert done + rest == done;
    } else {
      var next := done + [rest[0]];
      assert next[..|next| - 1] == done;
      assert BuildPartialBlock(BuildBlock(done), rest[0]) == BuildBlock(next);
      PartialBlocksNestLikeBlock(next, rest[1..]);
      assert next + rest[1..] == done + rest;
    }
  }

  /** The result builder's partial-block construction and `buildBlock` agree on every block. */
  lemma PartialBuildIsBlock<S, A, E>(reducers: seq<Reducer<S, A, E>>)
    requires |reducers| >= 1
    ensures BuildPartially(BuildPartialBlockFirst(reducers[0]), reducers[1..]) == BuildBlock(reducers)
  {
    PartialBlocksNestLikeBlock([reducers[0]], reducers[1..]);
    assert [reducers[0]] + reducers[1..] == reducers;
  }

  /** A reducer that appends `marker` to the state and returns an effect of that one token. */
  function Marker<T, A>(marker: T): Reducer<seq<T>, A, T>
  {
    Leaf((s: seq<T>, a: A) => (s + [marker], [marker]))
  }

  /** One marker reducer per marker, in order. */
  function Markers<T, A>(markers: seq<T>): seq<Reducer<seq<T>, A, T>>
  {
    seq(|markers|, i requires 0 <= i < |markers| => Marker(markers[i]))
  }

  /**
   * Later reducers see earlier reducers' changes, in declaration order: reducers that each append
   * a marker leave the markers in the order declared, and the merged effect holds every marker
   * in that order too.
   */
  lemma {:induction false} MarkersRunInOrder<T, A>(markers: seq<T>, state: seq<T>, action: A)
    ensures Run(SequenceMany(Markers(markers)), state, action) == (state + markers, markers)
    decreases |markers|
  {
    if markers != [] {
      var n := |markers| - 1;
      var rs := Markers<T, A>(markers);
      assert rs[..n] == Markers(markers[..n]);
      MarkersRunInOrder(markers[..n], state, action);
      assert RunAll(rs[..n], state, action) == (state + markers[..n], markers[..n]);
      assert Run(rs[n], state + markers[..n], action) == (state + markers[..n] + [markers[n]], [markers[n]]);
      assert state + markers[..n] + [markers[n]] == state + markers;
      assert markers[..n] + [markers[n]] == markers;
    } else {
      assert Markers<T, A>(markers) == [];
      assert state + markers == state;
    }
  }
}
