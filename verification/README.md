# Shared state and reducer composition, modelled in Dafny

This project models three parts of the Composable Architecture's Swift sources:

- **The reference cell and its registry** (`References`, file `value_reference.dfy`). A
  `ValueReference` holds the current value of a shared value. Every assignment is broadcast to
  a relay. When the cell's persistence key can save, the assignment is then written through to
  `save`. A keyed cell starts from what `load` gave, or else from the caller's default. An
  external change from the key's subscription sets the notified value, or the cell's initial
  value when the notification is `nil`. The process-wide registry maps each persistence key to
  a reference count and the one cell every handle for that key shares.
- **The read-only handle `SharedReader`** (`Readers`, file `shared_reader.dfy`). A handle is a
  cell, a projection (a key path, here a getter function), and a lifetime object whose
  disposal releases the registry entry. Derived handles (`dynamicMember`, the optional-member
  subscript, `elements`, `eraseToAnySharedReader`) share the parent's cell and compose its
  projection. Equality, hashing and `id` look only at the projected value.
- **Reducer composition** (`ReducerBuilder`, file `reducer_builder.dfy`). `_Sequence`,
  `_SequenceMany` and `_Conditional` run on one state threaded through every child, and their
  effects are merged. The result-builder functions build those values.

`wrappers.dfy` holds `Option` and `Result`.

The model is sequential. Persistence is abstract:

- what `load` returns is a parameter of the keyed constructor;
- each `save` is an entry in the cell's event log;
- the subscription callback is the method `Cell.ExternalChange`.

Effects are sequences of opaque tokens. `.none` is the empty sequence and `merge(with:)` is
concatenation. `Merge` states the multiset and the length of the merged effect; the lemmas about
running reducers state the effect as a sequence, and `SequenceThreadsState` states both.

The setter broadcasts the new value (in `didSet`) before it saves it, so the save comes after
the broadcast. Releasing the last handle removes the registry entry, but the
release closure does not cancel the cell's subscription.

## Model

| member | source | states |
|---|---|---|
| `References.AppendWrite` | Sources/ComposableArchitecture/SharedState/References/ValueReference.swift:186-199 | One assignment adds its value to the broadcast history and, when saving, to the save history; every save directly follows the broadcast of the same value |
| `References.Cell.Keyed` | Sources/ComposableArchitecture/SharedState/References/ValueReference.swift:207-232 | A keyed cell starts at `load(initialValue) ?? initialValue`, bound to its key, with nothing broadcast or saved |
| `References.Cell.Unkeyed` | Sources/ComposableArchitecture/SharedState/References/ValueReference.swift:233-245 | An unshared cell starts at the given value, with no key (so no subscription) and nothing broadcast or saved |
| `References.Cell.SetValue` | Sources/ComposableArchitecture/SharedState/References/ValueReference.swift:167-199 | After `value = v` the cell reads `v`; `v` is broadcast once; `v` is saved exactly once, after the broadcast, iff the key is a writable `PersistenceKey`; the invariant (saves follow broadcasts, the current value is the last broadcast) is kept |
| `References.Cell.ExternalChange` | Sources/ComposableArchitecture/SharedState/References/ValueReference.swift:220-231 | The subscription callback sets the notified value, or the initial value on `nil`, broadcasts it and saves nothing |
| `References.Cell.Publisher` | Sources/ComposableArchitecture/SharedState/References/ValueReference.swift:202-205 | Dropping the relay's replayed value leaves a subscriber exactly the values assigned after it attached, in order; the seed is never delivered |
| `References.Acquired` | Sources/ComposableArchitecture/SharedState/References/ValueReference.swift:21-34 | Requesting a key raises its count by one; a held key keeps its stored cell (the new default is ignored); a missing key gets the new cell with count 1; no other entry changes |
| `References.Released` | Sources/ComposableArchitecture/SharedState/References/ValueReference.swift:40-49 | Disposing removes an entry held once, decrements any other count, leaves a missing key's table unchanged, and touches no other entry |
| `References.AcquirePreservesWellFormed` | Sources/ComposableArchitecture/SharedState/References/ValueReference.swift:22-33 | Acquiring keeps every entry's cell bound to its own key (counts stay at least 1 by type) |
| `References.ReleasePreservesWellFormed` | Sources/ComposableArchitecture/SharedState/References/ValueReference.swift:41-48 | Releasing keeps the table well formed and lowers the key's count by one, never below zero |
| `References.EntryIffHeld` | Sources/ComposableArchitecture/SharedState/References/ValueReference.swift:41-46 | A key has an entry exactly when its count is positive |
| `References.DistinctKeysDistinctCells` | Sources/ComposableArchitecture/SharedState/References/ValueReference.swift:25-33 | Two different keys never share a cell |
| `References.ReleaseUndoesAcquire` | Sources/ComposableArchitecture/SharedState/References/ValueReference.swift:21-49 | Releasing right after acquiring restores the table exactly |
| `References.RequestsShareOneCell` | Sources/ComposableArchitecture/SharedState/References/ValueReference.swift:22-33 | `n` requests for one key all get one cell (the existing one or the first created) and raise its count by exactly `n` |
| `References.DisposalsUndoRequests` | Sources/ComposableArchitecture/SharedState/References/ValueReference.swift:21-49 | After `n` requests and `n` disposals of a key the table is unchanged: the count is the number of live handles and the last disposal evicts the entry |
| `References.Registry.constructor` | Sources/ComposableArchitecture/SharedState/References/ValueReference.swift:258-264 | Both the live and the test registry start empty |
| `References.Registry.Acquire` | Sources/ComposableArchitecture/SharedState/References/ValueReference.swift:19-36 | The acquire closure updates the table as `Acquired` says, hands back the stored cell for a held key, and otherwise a fresh keyed cell built from the default and the load result |
| `References.Registry.Release` | Sources/ComposableArchitecture/SharedState/References/ValueReference.swift:38-50 | The release closure updates the table as `Released` says and keeps it well formed |
| `Readers.ReferenceClass.Deinit` | Sources/ComposableArchitecture/SharedState/SharedReader.swift:8-17 | The cancel hook releases its key the first time and does nothing ever after |
| `Readers.Dispose` | Sources/ComposableArchitecture/SharedState/SharedReader.swift:14-16 | Disposing a handle releases its key once if it holds one; a handle with a no-op hook leaves the registry alone |
| `Readers.FromReference` | Sources/ComposableArchitecture/SharedState/SharedReader.swift:29-31 | `init(reference:)` reads the given cell and has a no-op cancel hook |
| `Readers.FromReferenceReadsWhole` | Sources/ComposableArchitecture/SharedState/SharedReader.swift:50-57 | Through the identity projection, `wrappedValue` is the cell's current value |
| `Readers.Unshared` | Sources/ComposableArchitecture/SharedState/SharedReader.swift:37-48 | `init(_ value)` makes a fresh unkeyed cell, reads it whole, and has a no-op cancel hook |
| `Readers.Member` | Sources/ComposableArchitecture/SharedState/SharedReader.swift:63-71 | A `dynamicMember` handle refers to the parent's cell and has a no-op cancel hook, so deriving never touches the registry |
| `Readers.MemberTracksParent` | Sources/ComposableArchitecture/SharedState/SharedReader.swift:50-71 | A derived handle reads the member path applied to what the parent reads, for the current value and any later one |
| `Readers.OptionalMember` | Sources/ComposableArchitecture/SharedState/SharedReader.swift:73-85 | The optional subscript gives no handle iff the member is absent now; otherwise a handle on the same cell that reads the present member |
| `Readers.OptionalMemberFallsBack` | Sources/ComposableArchitecture/SharedState/SharedReader.swift:76-84 | If the member later becomes absent, the derived handle reads the value captured at derivation instead of failing; while present it reads the member |
| `Readers.Elements` | Sources/ComposableArchitecture/SharedState/SharedReader.swift:151-155 | `elements` gives one handle per index of the current collection, in index order, each on the same cell with a no-op hook and reading its element |
| `Readers.ElementsSurviveShrinking` | Sources/ComposableArchitecture/SharedState/SharedReader.swift:151-155 | An element handle whose index is no longer valid reads the element captured as its default |
| `Readers.EraseToAny` | Sources/ComposableArchitecture/SharedState/SharedReader.swift:158-161 | `eraseToAnySharedReader` refers to the same cell with a no-op hook |
| `Readers.EraseKeepsValue` | Sources/ComposableArchitecture/SharedState/SharedReader.swift:158-161 | The erased handle reads what the original reads and is equal to it |
| `Readers.EqualityIsByValue` | Sources/ComposableArchitecture/SharedState/SharedReader.swift:109-125 | Equal handles, on whatever cells, hash alike and have the same `id` |
| `Readers.UnsharedHandlesAreEqual` | Sources/ComposableArchitecture/SharedState/SharedReader.swift:109-125 | Two `init(_ value)` handles from one value have distinct cells and are still equal, because equality compares values |
| `Readers.Open` | Sources/ComposableArchitecture/SharedState/References/ValueReference.swift:76-119 | The keyed initialiser acquires the key's cell (the shared one when held, otherwise a fresh one whose initial value is the caller's default), reads it whole, and returns a handle whose fresh hook will release that key |
| `Readers.OpenOptional` | Sources/ComposableArchitecture/SharedState/References/ValueReference.swift:121-127 | The optional-value initialiser opens the key with `nil` as the default: the stored cell for a held key, otherwise a fresh cell whose initial value is `nil`; the handle reads it whole and its fresh hook releases the key |
| `Readers.InitialValueOrThrow` | Sources/ComposableArchitecture/SharedState/References/ValueReference.swift:134-138 | The throwing initialiser fails iff `load(initialValue: nil)` gives nothing, and otherwise uses that value |
| `Readers.OpenOrThrow` | Sources/ComposableArchitecture/SharedState/References/ValueReference.swift:129-140 | On failure the registry is untouched; on success the key is acquired with the loaded value as the default: the stored cell for a held key, otherwise a fresh cell seeded with that value; the handle reads it whole and its fresh hook releases the key |
| `Readers.SharedKeyLifecycle` | Sources/ComposableArchitecture/SharedState/References/ValueReference.swift:84-117 | Returns two handles for one key: they share one cell and both read a write made through the first; the key is held twice, then once after one disposal, still once after disposing the same handle again, and the second disposal restores the registry |
| `ReducerBuilder.Merge` | Sources/ComposableArchitecture/Reducer/ReducerBuilder.swift:421-422 | A merged effect holds every token of both effects |
| `ReducerBuilder.Reduce` | Sources/ComposableArchitecture/Reducer/ReducerBuilder.swift:383-441 | Running a composed reducer in place (`_Conditional`'s one branch, `_Sequence`'s two steps, `_SequenceMany`'s loop from `.none`) gives exactly the state and effect of the reference semantics `Run` |
| `ReducerBuilder.SequenceThreadsState` | Sources/ComposableArchitecture/Reducer/ReducerBuilder.swift:420-423 | `_Sequence(r0, r1)` ends in `r1`'s state started from `r0`'s, and its effect is `r0`'s merged with `r1`'s |
| `ReducerBuilder.BuildArray` | Sources/ComposableArchitecture/Reducer/ReducerBuilder.swift:12-16 | `buildArray(_:)` runs the array's reducers in order, each on the state the previous one left, merging their effects |
| `ReducerBuilder.BuildEmptyBlock` | Sources/ComposableArchitecture/Reducer/ReducerBuilder.swift:19-21 | `buildBlock()` leaves every state unchanged and returns `.none` |
| `ReducerBuilder.EmptyManyDoesNothing` | Sources/ComposableArchitecture/Reducer/ReducerBuilder.swift:436-440 | `_SequenceMany([])` returns `.none` and leaves the state unchanged, and `buildArray([])` runs like `buildBlock()` |
| `ReducerBuilder.ManyAppend` | Sources/ComposableArchitecture/Reducer/ReducerBuilder.swift:436-440 | Folding a concatenated array is running the two halves one after the other |
| `ReducerBuilder.EitherRunsItsBranch` | Sources/ComposableArchitecture/Reducer/ReducerBuilder.swift:31-44 | `buildEither(first:)` and `buildEither(second:)` behave exactly like the reducer they wrap |
| `ReducerBuilder.PassThroughBuilders` | Sources/ComposableArchitecture/Reducer/ReducerBuilder.swift:23-79 | `buildBlock` of one reducer, `buildExpression`, `buildFinalResult`, `buildOptional` and `buildPartialBlock(first:)` return their argument |
| `ReducerBuilder.BlockRunsLikeMany` | Sources/ComposableArchitecture/Reducer/ReducerBuilder.swift:105-331 | `buildBlock(r0, ..., rk)` runs `r0` to `rk` in order with the same state and effect as `_SequenceMany` over them |
| `ReducerBuilder.PartialBlocksNestLikeBlock` | Sources/ComposableArchitecture/Reducer/ReducerBuilder.swift:81-86 | Adding components one by one with `buildPartialBlock(accumulated:next:)` extends `buildBlock`'s left nesting |
| `ReducerBuilder.PartialBuildIsBlock` | Sources/ComposableArchitecture/Reducer/ReducerBuilder.swift:74-86 | Building a block with `buildPartialBlock` gives the same reducer as `buildBlock` |
| `ReducerBuilder.MarkersRunInOrder` | Sources/ComposableArchitecture/Reducer/ReducerBuilder.swift:436-440 | Reducers that each append a marker leave the markers in declaration order, and the merged effect holds each marker in that order |

## Left out

- Locks (`NSRecursiveLock`, `LockIsolated`), `@unchecked Sendable` and `[weak self]`: the model is sequential, and a cell lives as long as anything refers to it.
- `Cell.SetValue`: a subscriber that assigns to the cell while the new value is being broadcast is not modelled. The recursive lock lets that nested assignment through, and the outer assignment then saves the nested value rather than its own; in the model each assignment broadcasts and saves its own value.
- The Perception/Observation registrar calls (`access`, `willSet`, `didSet`) around reads and writes: they belong to the UI observation framework. Reading `value` is reading the field `Cell.current`.
- The Combine relay and `AnyPublisher`: the relay is the cell's broadcast history plus its seed. `SharedReader.publisher` (its `compactMap` over the cell's publisher) is not modelled.
- The `@Dependency` lookup of the registry: the registry is an explicit `Registry` argument.
- Concrete persistence backends: `load` is a parameter, `save` is a log entry, and `subscribe` is the method `Cell.ExternalChange`. Cancelling the subscription is not modelled.
- The `Shared` handle: `Shared.swift` is not part of this model. Its keyed initialisers run the same registry logic as `Readers.Open` (and `Readers.OpenOptional`, `Readers.OpenOrThrow`), and a write through it ends in `Cell.SetValue`. Writing through a projected path is not modelled.
- The debug `print` lines in the reader's release closure, the `fatalError` autocompletion initialisers, `description`, and the `fileID`/`line` tags.
- `Encodable`, `CustomDumpRepresentable` and the `persistence` force-cast.
- `AnyKeyPath`, `unsafeDowncast` and mixed value types in one registry: a registry holds one value type, and projections are typed getter functions, so a key path cannot fail to resolve.
- `projectedValue` and `init(projectedValue:)` return the handle itself; a handle is a value, so they are not modelled separately.
- `Readers.Dispose`: Swift runs `deinit` once the last copy of a handle is gone. The model makes disposal an explicit call and proves that later calls do nothing.
- The registry's invariant (`Registry.Valid`) does not carry the validity of the cells in the table. So the model cannot call `Cell.SetValue` on a cell that an earlier request created. Its contract needs `Cell.Valid()`, which only a freshly made cell is known to satisfy.
- Handles whose `onCancel` is `{}` carry no lifetime object. Disposing them has no effect.
- `EmptyReducer` and `Reduce` are not part of this model. `Empty` is the reducer that leaves the state alone and returns `.none`. `buildLimitedAvailability` and the disfavoured `buildFinalResult`, which wrap a reducer in `Reduce`, are not modelled.
- `buildOptional` returns the optional unchanged. How an optional reducer runs depends on a conformance that is not part of this model.
- The builder overloads for Swift before 5.7: `buildBlock` with 2 to 10 arguments is `ReducerBuilder.BuildBlock` over any non-empty list. The other duplicated overloads behave like the ones modelled.
- The `Effect` runtime: effects are sequences of tokens. `merge` runs effects concurrently, so the order of tokens in a merged effect means declaration order, not completion order.
- Reference counts are unbounded naturals; Swift's `Int` overflow would need 2^63 live handles.
