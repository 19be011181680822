/**
 * The reference cell behind every shared value, and the registry that hands out one cell per
 * persistence key with a reference count.
 *
 * Persistence backends are abstract: what `load` returns is a parameter of the keyed
 * constructor, every `save` is an entry in the cell's event log, and the subscription callback
 * is the method `ExternalChange`. Locks and observation registrar calls are not modelled: every
 * operation here runs to completion before the next one starts.
 */
module References {
  import opened Wrappers

  /**
   * A persistence key. `id` is its logical identity (a storage path, say); `writable` tells a
   * `PersistenceKey`, which can save, from a `PersistenceReaderKey`, which can only load and
   * subscribe. Registry lookups compare whole keys, as the type-erased dictionary does.
   */
  datatype Key<I> = Key(id: I, writable: bool)

  /** What a cell emits: a value sent to its relay, or a value written through to `save`. */
  datatype EventKind = Broadcast | Save
  datatype Event<V> = Event(kind: EventKind, value: V)

  /** The values of the events of one kind, in the order they happened. */
  function Values<V>(log: seq<Event<V>>, kind: EventKind): seq<V>
  {
    if log == [] then []
    else (if log[0].kind == kind then [log[0].value] else []) + Values(log[1..], kind)
  }

  lemma {:induction false} ValuesAppend<V>(a: seq<Event<V>>, b: seq<Event<V>>, kind: EventKind)
    ensures Values(a + b, kind) == Values(a, kind) + Values(b, kind)
  {
    if a == [] {
      assert a + b == b;
    } else {
      assert (a + b)[1..] == a[1..] + b;
      ValuesAppend(a[1..], b, kind);
    }
  }

  /** Every `save` is of the value broadcast immediately before it. */
  ghost predicate SaveFollowsBroadcast<V>(log: seq<Event<V>>)
  {
    forall j :: 0 <= j < |log| && log[j].kind == Save ==>
      0 < j && log[j - 1] == Event(Broadcast, log[j].value)
  }

  /**
   * Appending one assignment — a broadcast of `v`, then a save of `v` when `save` holds — keeps
   * saves behind their broadcasts and extends both histories by `v` alone.
   */
  lemma AppendWrite<V>(log: seq<Event<V>>, v: V, save: bool)
    requires SaveFollowsBroadcast(log)
    ensures var after := log + [Event(Broadcast, v)] + (if save then [Event(Save, v)] else []);
      && SaveFollowsBroadcast(after)
      && Values(after, Broadcast) == Values(log, Broadcast) + [v]
      && Values(after, Save) == Values(log, Save) + (if save then [v] else [])
  {
    var tail := [Event(Broadcast, v)] + (if save then [Event(Save, v)] else []);
    assert log + [Event(Broadcast, v)] + (if save then [Event(Save, v)] else []) == log + tail;
    ValuesAppend(log, tail, Broadcast);
    ValuesAppend(log, tail, Save);
    assert Values(tail, Broadcast) == [v] + Values(tail[1..], Broadcast);
    assert Values(tail, Save) == Values(tail[1..], Save);
  }

  /** `ValueReference`: the current value, its persistence binding and its broadcast history. */
  class Cell<I, V> {
    /** The persistence key the cell was created for; `None` for an unshared value. */
    const key: Option<Key<I>>
    /** The value the cell was created with; it seeds the relay and backs `nil` notifications. */
    const initialValue: V
    /** `_value`. */
    var current: V
    /** Everything sent to the relay and everything saved, in order. */
    var log: seq<Event<V>>

    /** Assignments are written through only when the key is a writable `PersistenceKey`. */
    predicate WritesThrough() { key.Some? && key.value.writable }

    /** The values sent to the relay since construction. */
    function Sent(): seq<V> reads this { Values(log, Broadcast) }

    /** The values handed to `save` since construction. */
    function Saved(): seq<V> reads this { Values(log, Save) }

    ghost predicate Valid()
      reads this
    {
      && SaveFollowsBroadcast(log)
      && (!WritesThrough() ==> Saved() == [])
      && (Sent() != [] ==> current == Sent()[|Sent()| - 1])
    }

    /** The cell for a persistence key: it starts at what `load` gave, or at `initialValue`. */
    constructor Keyed(initialValue: V, key: Key<I>, loaded: Option<V>)
      ensures Valid()
      ensures this.key == Some(key) && this.initialValue == initialValue
      ensures current == (if loaded.Some? then loaded.value else initialValue)
      ensures log == []
    {
      this.key := Some(key);
      this.initialValue := initialValue;
      current := loaded.GetOr(initialValue);
      log := [];
    }

    /** The cell of an unshared value: no key, no subscription, nothing saved. */
    constructor Unkeyed(value: V)
      ensures Valid()
      ensures key == None && initialValue == value && current == value && log == []
    {
      key := None;
      initialValue := value;
      current := value;
      log := [];
    }

    /** The `value` setter: assign, broadcast the new value, then save it if the key can. */
    method SetValue(v: V)
      requires Valid()
      modifies this
      ensures Valid()
      ensures current == v
      ensures log == old(log) + [Event(Broadcast, v)] + (if WritesThrough() then [Event(Save, v)] else [])
      ensures Sent() == old(Sent()) + [v]
      ensures Saved() == old(Saved()) + (if WritesThrough() then [v] else [])
    {
      current := v;
      log := log + [Event(Broadcast, v)];
      if WritesThrough() {
        log := log + [Event(Save, current)];
      }
      AppendWrite(old(log), v, WritesThrough());
    }

    /**
     * The subscription callback installed by the keyed constructor: the notified value, or the
     * cell's initial value when the notification carries none, becomes current and is
     * broadcast. Nothing is saved.
     */
    method ExternalChange(notified: Option<V>)
      requires Valid() && key.Some?
      modifies this
      ensures Valid()
      ensures current == (if notified.Some? then notified.value else initialValue)
      ensures log == old(log) + [Event(Broadcast, current)]
      ensures Sent() == old(Sent()) + [current]
      ensures Saved() == old(Saved())
    {
      current := notified.GetOr(initialValue);
      log := log + [Event(Broadcast, current)];
      AppendWrite(old(log), current, false);
      assert log == old(log) + [Event(Broadcast, current)] + [];
    }

    /** What the relay has held, oldest first: its seed, then every value sent to it. */
    function Relay(): seq<V> reads this { [initialValue] + Sent() }

    /**
     * `publisher` for a subscriber that attached after `attached` sends: the relay replays its
     * current value and then every later send, and `dropFirst` removes the replay. So the
     * subscriber sees exactly the assignments made after it attached, in order.
     */
    function Publisher(attached: nat): (out: seq<V>)
      reads this
      requires attached <= |Sent()|
      ensures out == Sent()[attached..]
      ensures |out| == |Sent()| - attached
    {
      Relay()[attached..][1..]
    }
  }

  /** A reference count: an entry exists only while some handle holds it. */
  type Holders = n: nat | n >= 1 witness 1

  /** One registry entry: how many handles hold the key, and the cell they share. */
  datatype Entry<I, V> = Entry(count: Holders, cell: Cell<I, V>)

  type Table<I(==), V> = map<Key<I>, Entry<I, V>>

  /** Every entry's cell was made for the key it is stored under (counts are positive by type). */
  predicate WellFormed<I(==), V>(t: Table<I, V>)
  {
    forall k :: k in t ==> t[k].cell.key == Some(k)
  }

  /** The reference count of a key; 0 when the key has no entry. */
  function Count<I(==), V>(t: Table<I, V>, k: Key<I>): nat
  {
    if k in t then t[k].count else 0
  }

  /**
   * The table after a handle for `k` is requested: an existing entry gains one holder and keeps
   * its cell; a missing key gets the new cell `c` with one holder.
   */
  function Acquired<I(==), V>(t: Table<I, V>, k: Key<I>, c: Cell<I, V>): (u: Table<I, V>)
    ensures k in u && Count(u, k) == Count(t, k) + 1
    ensures u[k].cell == (if k in t then t[k].cell else c)
    ensures u.Keys - {k} == t.Keys - {k}
    ensures forall k' :: k' in t && k' != k ==> k' in u && u[k'] == t[k']
  {
    if k in t then t[k := Entry(t[k].count + 1, t[k].cell)] else t[k := Entry(1, c)]
  }

  /**
   * The table after a handle for `k` is disposed: the last holder removes the entry, any other
   * holder decrements the count, and a missing key changes nothing.
   */
  function Released<I(==), V>(t: Table<I, V>, k: Key<I>): (u: Table<I, V>)
    ensures k !in t ==> u == t
    ensures k in t && t[k].count == 1 ==> k !in u
    ensures k in t && t[k].count > 1 ==> k in u && u[k] == Entry(t[k].count - 1, t[k].cell)
    ensures u.Keys - {k} == t.Keys - {k}
    ensures forall k' :: k' in t && k' != k ==> k' in u && u[k'] == t[k']
  {
    if k in t then
      if t[k].count == 1 then t - {k} else t[k := Entry(t[k].count - 1, t[k].cell)]
    else t
  }

  lemma AcquirePreservesWellFormed<I, V>(t: Table<I, V>, k: Key<I>, c: Cell<I, V>)
    requires WellFormed(t) && c.key == Some(k)
    ensures WellFormed(Acquired(t, k, c))
  {
  }

  lemma ReleasePreservesWellFormed<I, V>(t: Table<I, V>, k: Key<I>)
    requires WellFormed(t)
    ensures WellFormed(Released(t, k))
    ensures Count(Released(t, k), k) == (if Count(t, k) == 0 then 0 else Count(t, k) - 1)
  {
  }

  /** A key has an entry exactly when its count is positive: entries are never held zero times. */
  lemma EntryIffHeld<I, V>(t: Table<I, V>, k: Key<I>)
    ensures k in t <==> Count(t, k) > 0
  {
  }

  /** Distinct keys never share a cell. */
  lemma DistinctKeysDistinctCells<I, V>(t: Table<I, V>, k1: Key<I>, k2: Key<I>)
    requires WellFormed(t) && k1 in t && k2 in t && k1 != k2
    ensures t[k1].cell != t[k2].cell
  {
  }

  /** Disposing a handle right after requesting it restores the table exactly. */
  lemma ReleaseUndoesAcquire<I, V>(t: Table<I, V>, k: Key<I>, c: Cell<I, V>)
    ensures Released(Acquired(t, k, c), k) == t
  {
    var u := Released(Acquired(t, k, c), k);
    assert u.Keys == t.Keys;
  }

  /** The table after `n` handles for `k` are requested, the first new cell being `c`. */
  function AcquiredTimes<I(==), V>(t: Table<I, V>, k: Key<I>, c: Cell<I, V>, n: nat): Table<I, V>
  {
    if n == 0 then t else Acquired(AcquiredTimes(t, k, c, n - 1), k, c)
  }

  /** The table after `n` handles for `k` are disposed. */
  function ReleasedTimes<I(==), V>(t: Table<I, V>, k: Key<I>, n: nat): Table<I, V>
  {
    if n == 0 then t else ReleasedTimes(Released(t, k), k, n - 1)
  }

  /**
   * `n` requests for one key share one cell — the existing one, or else the first created — and
   * raise its count by exactly `n`.
   */
  lemma {:induction false} RequestsShareOneCell<I, V>(t: Table<I, V>, k: Key<I>, c: Cell<I, V>, n: nat)
    requires n > 0
    ensures k in AcquiredTimes(t, k, c, n)
    ensures Count(AcquiredTimes(t, k, c, n), k) == Count(t, k) + n
    ensures AcquiredTimes(t, k, c, n)[k].cell == (if k in t then t[k].cell else c)
  {
    if n > 1 {
      RequestsShareOneCell(t, k, c, n - 1);
    }
  }

  /**
   * The reference count is the number of live handles: after `n` requests and `n` disposals of
   * one key the table is what it was, so an entry created by the first request is evicted by
   * the last disposal.
   */
  lemma {:induction false} DisposalsUndoRequests<I, V>(t: Table<I, V>, k: Key<I>, c: Cell<I, V>, n: nat)
    requires WellFormed(t) && c.key == Some(k)
    ensures WellFormed(AcquiredTimes(t, k, c, n))
    ensures ReleasedTimes(AcquiredTimes(t, k, c, n), k, n) == t
  {
    if n > 0 {
      var before := AcquiredTimes(t, k, c, n - 1);
      DisposalsUndoRequests(t, k, c, n - 1);
      AcquirePreservesWellFormed(before, k, c);
      ReleaseUndoesAcquire(before, k, c);
      assert ReleasedTimes(AcquiredTimes(t, k, c, n), k, n)
          == ReleasedTimes(Released(Acquired(before, k, c), k), k, n - 1);
    }
  }

  /** `PersistentReferencesKey`'s table: one per process, or per test run. */
  class Registry<I(==), V> {
    var entries: Table<I, V>

    ghost predicate Valid()
      reads this
    {
      WellFormed(entries)
    }

    /** `liveValue` and `testValue` both start empty. */
    constructor ()
      ensures Valid() && entries == map[]
    {
      entries := map[];
    }

    /**
     * The acquire closure of the keyed initialisers. A held key gains a holder and hands back
     * its cell, ignoring the caller's default; a missing key gets a new cell built from that
     * default and what `load` gave, held once.
     */
    method Acquire(key: Key<I>, initialValue: V, loaded: Option<V>) returns (cell: Cell<I, V>)
      requires Valid()
      modifies this
      ensures Valid()
      ensures entries == Acquired(old(entries), key, cell)
      ensures key in old(entries) ==> cell == old(entries)[key].cell
      ensures key !in old(entries) ==>
        && fresh(cell) && cell.Valid() && cell.key == Some(key) && cell.initialValue == initialValue
        && cell.current == (if loaded.Some? then loaded.value else initialValue) && cell.log == []
    {
      if key in entries {
        cell := entries[key].cell;
        entries := entries[key := Entry(entries[key].count + 1, cell)];
      } else {
        cell := new Cell.Keyed(initialValue, key, loaded);
        entries := entries[key := Entry(1, cell)];
      }
    }

    /** The release closure (`onCancel`) of the keyed initialisers. */
    method Release(key: Key<I>)
      requires Valid()
      modifies this
      ensures Valid()
      ensures entries == Released(old(entries), key)
    {
      if key in entries {
        var count, cell := entries[key].count, entries[key].cell;
        if count == 1 {
          entries := entries - {key};
        } else {
          entries := entries[key := Entry(count - 1, cell)];
        }
      }
    }
  }
}
