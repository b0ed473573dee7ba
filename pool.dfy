/** The pool object of cpp/Pool.h: a free list that `acquire` pops from the
    back and `release` pushes onto, with the per-type hooks run on each
    transition.  Every method is proved against the state machine of module
    PoolSpec.
 */
module ObjectPool {
  import PoolSpec

  /** An instance of the pooled type T.  Only its identity matters to the
      pool; `new T` is `new Instance()`. */
  class Instance {
    constructor ()
    {
    }
  }

  /** The hook that ran last on an instance. */
  datatype Phase = Initialized | Deinitialized

  class Pool {
    /** The free list: idle instances, most recently released last. */
    var storage: seq<Instance>
    /** The instances currently owned by handles. */
    ghost var outstanding: set<Instance>
    /** For every instance the pool has handled, the hook that ran on it last. */
    ghost var hooked: map<Instance, Phase>

    ghost function State(): (r: PoolSpec.State<Instance>)
      reads this
    {
      PoolSpec.State(storage, outstanding)
    }

    /** The ownership invariant, plus: the free list holds only
        deinitialized instances, and handles own only initialized ones. */
    ghost predicate Valid()
      reads this
    {
      && PoolSpec.Valid(State())
      && (forall i :: 0 <= i < |storage| ==> storage[i] in hooked && hooked[storage[i]] == Deinitialized)
      && (forall p :: p in outstanding ==> p in hooked && hooked[p] == Initialized)
    }

    /** The free list starts out empty. */
    constructor ()
      ensures Valid()
      ensures storage == [] && outstanding == {} && hooked == map[]
    {
      storage := [];
      outstanding := {};
      hooked := map[];
    }

    /** The default `initialize` hook: it leaves the instance as it is; the
        model only records that it ran. */
    method Initialize(p: Instance)
      modifies this
      ensures hooked == old(hooked)[p := Initialized]
      ensures storage == old(storage) && outstanding == old(outstanding)
    {
      hooked := hooked[p := Initialized];
    }

    /** The default `deinitialize` hook: it leaves the instance as it is;
        the model only records that it ran. */
    method Deinitialize(p: Instance)
      modifies this
      ensures hooked == old(hooked)[p := Deinitialized]
      ensures storage == old(storage) && outstanding == old(outstanding)
    {
      hooked := hooked[p := Deinitialized];
    }

    /** `Pool<T>::acquire`: a newly constructed instance when the free list
        is empty, otherwise the last idle instance; `initialize` runs on it
        before it is handed out. */
    method Acquire() returns (p: Instance)
      requires Valid()
      modifies this
      ensures Valid()
      ensures PoolSpec.Acquired(old(State()), p) == PoolSpec.Acquisition(p, State())
      ensures fresh(p) <==> old(storage) == []
      ensures hooked == old(hooked)[p := Initialized]
    {
      if storage == [] {
        p := new Instance();
      } else {
        p := storage[|storage| - 1];
        storage := storage[..|storage| - 1];
      }
      Initialize(p);
      outstanding := outstanding + {p};
      PoolSpec.AcquirePreservesValid(old(State()), p);
    }

    /** `Pool<T>::release`: `deinitialize` runs on the instance, which then
        goes to the back of the free list.  `p` is usually owned by a handle
        that `Acquire` made, but any instance that is not already idle is
        adopted by the pool. */
    method Release(p: Instance)
      requires Valid()
      requires p !in storage
      modifies this
      ensures Valid()
      ensures State() == PoolSpec.Released(old(State()), p)
      ensures hooked == old(hooked)[p := Deinitialized]
    {
      Deinitialize(p);
      storage := storage + [p];
      outstanding := outstanding - {p};
      PoolSpec.ReleasePreservesValid(old(State()), p);
    }

    /** `PoolDeleter::operator()`, run when a handle is destroyed: the
        instance is not deleted but returned to the pool, on top of the
        free list, and the handle's ownership ends. */
    method PoolDeleter(ptr: Instance)
      requires Valid()
      requires ptr !in storage
      modifies this
      ensures Valid()
      ensures storage == old(storage) + [ptr]
      ensures ptr !in outstanding && outstanding == old(outstanding) - {ptr}
      ensures hooked == old(hooked)[ptr := Deinitialized]
    {
      Release(ptr);
    }
  }

  /** A client of a new pool: acquire `a`, destroy its handle, acquire `b`.
      The second acquire reuses `a`, and the free list's size reads 0, 0, 1
      and 0 along the way. */
  method ReuseAfterRelease() returns (a: Instance, b: Instance, sizes: seq<nat>)
    ensures a == b
    ensures sizes == [0, 0, 1, 0]
  {
    var pool := new Pool();
    sizes := [|pool.storage|];
    a := pool.Acquire();
    sizes := sizes + [|pool.storage|];
    pool.PoolDeleter(a);
    sizes := sizes + [|pool.storage|];
    b := pool.Acquire();
    sizes := sizes + [|pool.storage|];
  }
}
