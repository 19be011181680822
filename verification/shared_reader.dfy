/**
 * `SharedReader`: a read-only handle made of a reference cell, a projection from the cell's
 * value, and a lifetime object whose disposal releases the registry entry the handle holds.
 *
 * Key paths are getter functions and appending a path is function composition. Swift's
 * `deinit` is the explicit method `Dispose`. A handle whose `onCancel` does nothing (derived,
 * unshared and `init(reference:)` handles) carries no lifetime object, since disposing it has
 * no effect.
 */
module Readers {
  import opened Wrappers
  import opened References

  /** `ReferenceClass` of a keyed handle: its `onCancel` releases `key`; `deinit` runs once. */
  class ReferenceClass<I(==)> {
    const key: Key<I>
    var cancelled: bool

    constructor (key: Key<I>)
      ensures this.key == key && !cancelled
    {
      this.key := key;
      cancelled := false;
    }

    /** `deinit`: the registry release runs the first time and never again. */
    method Deinit<V>(registry: Registry<I, V>)
      requires registry.Valid()
      modifies this, registry
      ensures registry.Valid() && cancelled
      ensures registry.entries ==
        if old(cancelled) then old(registry.entries) else Released(old(registry.entries), key)
    {
      if !cancelled {
        cancelled := true;
        registry.Release(key);
      }
    }
  }

  datatype Reader<I(==), !R, V> = Reader(refClass: Option<ReferenceClass<I>>, cell: Cell<I, R>, path: R -> V)
  {
    /** `wrappedValue`: the cell's current value read through the handle's projection. */
    function WrappedValue(): V
      reads cell
    {
      path(cell.current)
    }
  }

  /** `init(reference:)`: the whole value of `cell`, with a no-op `onCancel`. */
  function FromReference<I(==), V>(cell: Cell<I, V>): (r: Reader<I, V, V>)
    ensures r.cell == cell && r.refClass == None
  {
    Reader(None, cell, x => x)
  }

  /** A handle made from a reference reads the cell's whole value. */
  lemma FromReferenceReadsWhole<I, V>(cell: Cell<I, V>, x: V)
    ensures FromReference(cell).path(x) == x
    ensures FromReference(cell).WrappedValue() == cell.current
  {
  }

  /** The `dynamicMember` subscript: the same cell, read one member further, with a no-op `onCancel`. */
  function Member<I(==), R, V, M>(r: Reader<I, R, V>, member: V -> M): (d: Reader<I, R, M>)
    ensures d.cell == r.cell && d.refClass == None
  {
    Reader(None, r.cell, x => member(r.path(x)))
  }

  /**
   * A derived handle reads the member of whatever the parent reads: of the current value, and
   * of any root value `x` the cell may hold later.
   */
  lemma MemberTracksParent<I, R, V, M>(r: Reader<I, R, V>, member: V -> M, x: R)
    ensures Member(r, member).path(x) == member(r.path(x))
    ensures Member(r, member).WrappedValue() == member(r.WrappedValue())
  {
  }

  /**
   * The optional-member subscript: no handle when the member is absent now; otherwise a handle
   * on the same cell whose projection substitutes the member seen now whenever it is absent.
   */
  function OptionalMember<I(==), R, V, M>(r: Reader<I, R, V>, member: V -> Option<M>): (d: Option<Reader<I, R, M>>)
    reads r.cell
    ensures d.None? <==> member(r.WrappedValue()).None?
    ensures d.Some? ==> d.value.cell == r.cell && d.value.refClass == None
    ensures d.Some? ==> d.value.WrappedValue() == member(r.WrappedValue()).value
  {
    match member(r.WrappedValue())
    case None => None
    case Some(initial) => Some(Member(r, (v: V) => member(v).GetOr(initial)))
  }

  /**
   * Whatever root value the cell holds later, a handle from `OptionalMember` reads the member
   * when it is present and the value captured at derivation when it is absent.
   */
  lemma OptionalMemberFallsBack<I, R, V, M>(r: Reader<I, R, V>, member: V -> Option<M>, later: R)
    requires OptionalMember(r, member).Some?
    ensures member(r.path(later)).Some? ==>
      OptionalMember(r, member).value.path(later) == member(r.path(later)).value
    ensures member(r.path(later)).None? ==>
      OptionalMember(r, member).value.path(later) == member(r.WrappedValue()).value
  {
  }

  /** The key path `\.[index, default:]`: the element at `i`, or `default` past the end. */
  function ElementOr<E>(i: nat, default: E): seq<E> -> E
  {
    xs => if i < |xs| then xs[i] else default
  }

  /**
   * `elements`: one handle per index of the current collection, in index order, each reading
   * its index with the element seen now as the default.
   */
  function Elements<I(==), R, E>(r: Reader<I, R, seq<E>>): (es: seq<Reader<I, R, E>>)
    reads r.cell
    ensures |es| == |r.WrappedValue()|
    ensures forall i :: 0 <= i < |es| ==>
      es[i].cell == r.cell && es[i].refClass == None && es[i].WrappedValue() == r.WrappedValue()[i]
  {
    var xs := r.WrappedValue();
    seq(|xs|, i requires 0 <= i < |xs| => Member(r, ElementOr(i, xs[i])))
  }

  /** An element handle whose index has gone stale reads the element captured when it was made. */
  lemma ElementsSurviveShrinking<I, R, E>(r: Reader<I, R, seq<E>>, i: nat, later: R)
    requires i < |r.WrappedValue()|
    ensures i < |r.path(later)| ==> Elements(r)[i].path(later) == r.path(later)[i]
    ensures i >= |r.path(later)| ==> Elements(r)[i].path(later) == r.WrappedValue()[i]
  {
  }

  /** `eraseToAnySharedReader`: `self[dynamicMember: \.self]`. */
  function EraseToAny<I(==), R, V>(r: Reader<I, R, V>): (d: Reader<I, R, V>)
    ensures d.cell == r.cell && d.refClass == None
  {
    Member(r, (v: V) => v)
  }

  /** `==`: handles are equal when their projected values are, whatever cells they read. */
  predicate Equal<I(==), R1, R2, V(==)>(a: Reader<I, R1, V>, b: Reader<I, R2, V>)
    reads a.cell, b.cell
  {
    a.WrappedValue() == b.WrappedValue()
  }

  /** `hash(into:)`: what is combined into the hasher is the projected value. */
  function Hash<I(==), R, V, H>(r: Reader<I, R, V>, hashOf: V -> H): H
    reads r.cell
  {
    hashOf(r.WrappedValue())
  }

  /** `id`: the projected value's identifier. */
  function Id<I(==), R, V, D>(r: Reader<I, R, V>, idOf: V -> D): D
    reads r.cell
  {
    idOf(r.WrappedValue())
  }

  /** Equality is by value, so equal handles hash and identify alike, whatever cells they read. */
  lemma EqualityIsByValue<I, R1, R2, V, H, D>(a: Reader<I, R1, V>, b: Reader<I, R2, V>, hashOf: V -> H, idOf: V -> D)
    ensures Equal(a, b) ==> Hash(a, hashOf) == Hash(b, hashOf) && Id(a, idOf) == Id(b, idOf)
  {
  }

  /** Two handles made with `init(_ value)` from one value have distinct cells and are equal. */
  method UnsharedHandlesAreEqual<I(==), V>(value: V) returns (a: Reader<I, V, V>, b: Reader<I, V, V>)
    ensures a.cell != b.cell
    ensures Equal(a, b) && a.WrappedValue() == value
  {
    a := Unshared(value);
    b := Unshared(value);
  }

  /** An erased handle reads the same cell and equals the original. */
  lemma EraseKeepsValue<I, R, V>(r: Reader<I, R, V>, x: R)
    ensures EraseToAny(r).path(x) == r.path(x)
    ensures Equal(EraseToAny(r), r)
  {
  }

  /** `init(_ value)`: a fresh unkeyed cell read whole, with a no-op `onCancel`. */
  method Unshared<I(==), V>(value: V) returns (r: Reader<I, V, V>)
    ensures fresh(r.cell) && r.cell.Valid() && r.cell.key == None && r.cell.log == []
    ensures r.refClass == None && r.WrappedValue() == value
    ensures forall x :: r.path(x) == x
  {
    var cell := new Cell.Unkeyed(value);
    r := FromReference(cell);
  }

  /**
   * The keyed initialisers `init(wrappedValue:_:)` of `SharedReader` (and of `Shared`, whose
   * registry logic is the same): acquire the key's cell, read it whole, and release the key
   * when the handle is disposed.
   */
  method Open<I(==), V>(registry: Registry<I, V>, key: Key<I>, value: V, loaded: Option<V>) returns (r: Reader<I, V, V>)
    requires registry.Valid()
    modifies registry
    ensures registry.Valid()
    ensures registry.entries == Acquired(old(registry.entries), key, r.cell)
    ensures key in old(registry.entries) ==> r.cell == old(registry.entries)[key].cell
    ensures key !in old(registry.entries) ==>
      && fresh(r.cell) && r.cell.Valid() && r.cell.key == Some(key) && r.cell.log == []
      && r.cell.initialValue == value
      && r.cell.current == (if loaded.Some? then loaded.value else value)
    ensures r.refClass.Some? && fresh(r.refClass.value)
    ensures r.refClass.value.key == key && !r.refClass.value.cancelled
    ensures forall x :: r.path(x) == x
  {
    var cell := registry.Acquire(key, value, loaded);
    var refClass := new ReferenceClass(key);
    r := Reader(Some(refClass), cell, x => x);
  }

  /** `init(_:)` for an optional value: `Open` with `nil` as the default. */
  method OpenOptional<I(==), W>(registry: Registry<I, Option<W>>, key: Key<I>, loaded: Option<Option<W>>)
    returns (r: Reader<I, Option<W>, Option<W>>)
    requires registry.Valid()
    modifies registry
    ensures registry.Valid()
    ensures registry.entries == Acquired(old(registry.entries), key, r.cell)
    ensures key in old(registry.entries) ==> r.cell == old(registry.entries)[key].cell
    ensures key !in old(registry.entries) ==>
      && fresh(r.cell) && r.cell.Valid() && r.cell.key == Some(key) && r.cell.log == []
      && r.cell.initialValue == None
      && r.cell.current == (if loaded.Some? then loaded.value else None)
    ensures r.refClass.Some? && fresh(r.refClass.value)
    ensures r.refClass.value.key == key && !r.refClass.value.cancelled
    ensures forall x :: r.path(x) == x
  {
    r := Open(registry, key, None, loaded);
  }

  datatype LoadError = LoadError

  /** The throwing initialiser's guard: `load(initialValue: nil)` must give a value. */
  function InitialValueOrThrow<V>(loadedWithoutDefault: Option<V>): (r: Result<V, LoadError>)
    ensures r.Failure? <==> loadedWithoutDefault.None?
    ensures r.Success? ==> r.value == loadedWithoutDefault.value
  {
    match loadedWithoutDefault
    case None => Failure(LoadError)
    case Some(v) => Success(v)
  }

  /**
   * The throwing `init(_:)`: fails, touching nothing, when `load(initialValue: nil)` gives no
   * value; otherwise opens the key with that value as the default. `loaded` is what the
   * second `load`, made by the cell's constructor, gives.
   */
  method OpenOrThrow<I(==), V>(registry: Registry<I, V>, key: Key<I>, loadedWithoutDefault: Option<V>, loaded: Option<V>)
    returns (r: Result<Reader<I, V, V>, LoadError>)
    requires registry.Valid()
    modifies registry
    ensures registry.Valid()
    ensures r.Failure? <==> loadedWithoutDefault.None?
    ensures r.Failure? ==> registry.entries == old(registry.entries)
    ensures r.Success? ==> registry.entries == Acquired(old(registry.entries), key, r.value.cell)
    ensures r.Success? && key in old(registry.entries) ==> r.value.cell == old(registry.entries)[key].cell
    ensures r.Success? && key !in old(registry.entries) ==>
      && fresh(r.value.cell) && r.value.cell.Valid() && r.value.cell.key == Some(key)
      && r.value.cell.log == [] && r.value.cell.initialValue == loadedWithoutDefault.value
      && r.value.cell.current == (if loaded.Some? then loaded.value else loadedWithoutDefault.value)
    ensures r.Success? ==>
      && r.value.refClass.Some? && fresh(r.value.refClass.value)
      && r.value.refClass.value.key == key && !r.value.refClass.value.cancelled
    ensures r.Success? ==> forall x :: r.value.path(x) == x
  {
    match InitialValueOrThrow(loadedWithoutDefault)
    case Failure(e) =>
      r := Failure(e);
    case Success(initial) =>
      var reader := Open(registry, key, initial, loaded);
      r := Success(reader);
  }

  /** Dropping a handle: its lifetime object's `deinit`, if it has one. */
  method Dispose<I(==), R, V, W>(r: Reader<I, R, V>, registry: Registry<I, W>)
    requires registry.Valid()
    modifies registry, if r.refClass.Some? then {r.refClass.value} else {}
    ensures registry.Valid()
    ensures r.refClass.Some? ==> r.refClass.value.cancelled
    ensures registry.entries ==
      if r.refClass.None? || old(r.refClass.value.cancelled) then old(registry.entries)
      else Released(old(registry.entries), r.refClass.value.key)
  {
    if r.refClass.Some? {
      r.refClass.value.Deinit(registry);
    }
  }

  /**
   * Two handles on one persistence key share one cell: a write through one is read through the
   * other, the key is held twice, one disposal leaves it held once (disposing the same handle
   * again changes nothing), and the second handle's disposal removes it, restoring the registry.
   */
  method SharedKeyLifecycle<I(==), V>(registry: Registry<I, V>, key: Key<I>, a: V, b: V, loaded: Option<V>, written: V)
    returns (first: Reader<I, V, V>, second: Reader<I, V, V>, heldTwice: nat, heldOnce: nat, heldAfterRepeat: nat)
    requires registry.Valid() && key !in registry.entries
    modifies registry
    ensures first.cell == second.cell
    ensures first.WrappedValue() == written && second.WrappedValue() == written
    ensures heldTwice == 2 && heldOnce == 1 && heldAfterRepeat == 1
    ensures registry.Valid() && registry.entries == old(registry.entries)
  {
    first := Open(registry, key, a, loaded);
    second := Open(registry, key, b, loaded);
    heldTwice := Count(registry.entries, key);
    first.cell.SetValue(written);
    Dispose(first, registry);
    heldOnce := Count(registry.entries, key);
    Dispose(first, registry);
    heldAfterRepeat := Count(registry.entries, key);
    Dispose(second, registry);
  }
}
