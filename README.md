# Object pool (cpp/Pool.h) in Dafny

`Pool<T>` in cpp/Pool.h recycles instances of a type `T` instead of
allocating and freeing them. It keeps a free list `storage` of idle
instances. `acquire` pops the last idle instance (LIFO), or constructs a new
`T` when the free list is empty, runs the `initialize` hook on it and wraps it
in a handle (`Pointer`, a `unique_ptr` whose deleter is `PoolDeleter`).
Destroying the handle runs `PoolDeleter`, which calls `release`: the
`deinitialize` hook runs and the instance is pushed onto the back of the free
list instead of being deleted.

The model has two modules.

- `PoolSpec` (pool_spec.dfy) describes the pool as a state machine over
  values: a `State` is the free list (`storage`, a sequence) and the set of
  instances owned by handles (`outstanding`). `Acquired` and `Released` are
  the two transitions; `Valid` is the ownership invariant: no instance sits in
  the free list twice, and no idle instance is owned by a handle. The lemmas
  prove that both transitions keep the invariant, that release followed by
  acquire gives back the same instance and the earlier state, that releases
  append to the free list without bound, and that acquire-use-release cycles
  keep at most one idle instance and reuse it every time.
- `ObjectPool` (pool.dfy) is the pool itself: class `Pool` with the free list
  `storage: seq<Instance>` that `Acquire` and `Release` reassign, a ghost set
  `outstanding` of handed-out instances, and a ghost map `hooked` recording
  which hook ran last on each instance. `Instance` is the pooled type `T`;
  constructing a new `T` is `new Instance()`, so a cold acquire returns a
  fresh object. The `ensures` of `Acquire`, `Release` and `PoolDeleter` tie
  the new state to the `PoolSpec` transition of the old state and keep
  `Valid()`, which adds
  that the free list holds only deinitialized instances and the handles only
  initialized ones.

The default hooks (cpp/Pool.h:9-10) do nothing to the instance. The model's
`Initialize` and `Deinitialize` change only the ghost record `hooked`, which
is how the contracts state that `initialize` ran before an instance is handed
out and `deinitialize` ran before it went back on the free list.

`release` pushes the instance onto the free list (cpp/Pool.h:37), so after N
acquire/release cycles done one at a time the free list holds exactly one idle
instance; `PoolSpec.CyclesReuseOne` states it.

## Model

| member | source | states |
|---|---|---|
| `PoolSpec.Acquired` | cpp/Pool.h:21-32 | On an empty free list the result is the newly constructed instance and the free list stays empty; otherwise the result is the last idle instance and the remaining free list followed by it is the old free list (LIFO, nothing else removed); the result is owned by a handle afterwards. |
| `PoolSpec.Released` | cpp/Pool.h:35-38 | The free list grows by exactly one, its old elements are unchanged and in place, the released instance is at the back, and no handle owns it any more. |
| `PoolSpec.AcquirePreservesValid` | cpp/Pool.h:21-32 | Acquire keeps the ownership invariant, never hands out an instance a handle already owns, takes the instance out of the free list, and adds exactly that instance to the ones the pool knows of (a cold acquire adds one the pool never had). |
| `PoolSpec.ReleasePreservesValid` | cpp/Pool.h:35-38 | Releasing any instance that is not already idle keeps the ownership invariant and loses no instance: the idle and handed-out instances together gain exactly that instance, and stay the same set when a handle owned it. |
| `PoolSpec.ReleaseThenAcquire` | cpp/Pool.h:26-37 | An acquire straight after `release(p)` returns `p` itself and restores the free list and the handles to what they were before the release. |
| `PoolSpec.ReleaseAllAppends` | cpp/Pool.h:37 | n releases with no acquire in between append exactly those n instances, in order, so the free list grows by exactly n and has no upper bound. |
| `PoolSpec.ReleaseAllPreservesValid` | cpp/Pool.h:35-38 | Releasing distinct instances that are not idle, one after the other, keeps the ownership invariant and removes exactly those instances from the handles. |
| `PoolSpec.CycleReusesTop` | cpp/Pool.h:21-38 | One acquire-use-release cycle on a free list of at most one instance leaves exactly one idle instance, the one just used (the newly constructed one if the list was empty), and the handles unchanged. |
| `PoolSpec.CyclesReuseOne` | cpp/Pool.h:21-38 | After n >= 1 cycles performed one at a time, starting from at most one idle instance, the free list is exactly that one instance (or the one constructed by the first cycle), so it never holds more than one; after 0 cycles nothing changed. |
| `ObjectPool.Pool.constructor` | cpp/Pool.h:41 | The free list starts empty, no handle owns anything, and the invariant holds. |
| `ObjectPool.Pool.Initialize` | cpp/Pool.h:9 | The default `initialize` hook changes nothing in the pool's free list or handles; only the record that it ran on the instance changes. |
| `ObjectPool.Pool.Deinitialize` | cpp/Pool.h:10 | The default `deinitialize` hook changes nothing in the pool's free list or handles; only the record that it ran on the instance changes. |
| `ObjectPool.Pool.Acquire` | cpp/Pool.h:21-32 | The new state is the `Acquired` transition of the old one; the result is a fresh object exactly when the free list was empty; `initialize` ran on it; the invariant (including "handles own only initialized instances") is kept. |
| `ObjectPool.Pool.Release` | cpp/Pool.h:35-38 | Requires only that the instance is not already idle (an instance the pool never handed out is adopted); the new state is the `Released` transition of the old one, `deinitialize` ran on the instance, and the invariant (including "the free list holds only deinitialized instances") is kept. |
| `ObjectPool.Pool.PoolDeleter` | cpp/Pool.h:12-16 | Destroying a handle does not delete the instance: it ends the handle's ownership and puts the deinitialized instance on the back of the free list; an instance the pool never handed out is adopted the same way, and only an instance already idle is excluded. |
| `ObjectPool.ReuseAfterRelease` | cpp/Pool.h:21-38 | On a new pool: acquire `a`, destroy its handle, acquire `b`; then `b` is `a`, and the free list's size reads 0, 0, 1, 0. |

## Left out

- Allocation failure of `new T` (cpp/Pool.h:24): construction always succeeds in the model.
- `unique_ptr` mechanics: a handle is not an object of the model; its end of life is the explicit `PoolDeleter` call. Unique ownership rules out releasing an instance twice, which is the requirement that the instance is not already in the free list; a handle built around an instance the pool never handed out is allowed, and the pool adopts that instance.
- The hooks `initialize` and `deinitialize` are public in the source and have no effect on the pool when called directly; the model covers them only as steps inside `Acquire` and `Release`. Calling `Pool.Initialize` or `Pool.Deinitialize` directly changes the hook record and can break `Valid()`, which the source's no-op hooks cannot do.
- `release` is private in the source and reachable only through `PoolDeleter`; Dafny has no access control, so `Pool.Release` is callable directly.
- The process-wide static free list per template instantiation (cpp/Pool.h:41): the model has one explicit `Pool` object; pools for different types are separate objects and cannot affect each other.
- Per-type specializations of the hooks: only the default no-op hooks are modelled. The specializations at cpp/Pool.h:45-67 are commented out.
- Destruction of the idle instances when the static free list is destroyed at program exit.
- Thread safety: the source has none.
- A `size()` query and a maximum idle count: neither exists in cpp/Pool.h; the free list's size is `|storage|`.
- cpp/object_pool.cpp (an `acquire` that only calls `make_unique`, with no pooling) and cpp/perfect_forwarding.cpp (constructor-selection narration printed to the console) are not part of this model.
