/** The resource pool as one thread runs it: a queue, a size and a shutdown flag updated in place. */
module ResourcePool {
  import opened Wrappers
  import opened MachineInt
  import opened Queues

  datatype PoolError = PoolExhausted | PoolShutdown | CreationFailed

  datatype Acquired<R> = Handle(resource: R) | Failure(error: PoolError)

  class Pool<R> {
    const initialSize: nat
    const maxSize: nat
    var resources: seq<R>
    var size: nat
    var shutdown: bool
    /** Resources handed out and not returned; closed counts those returned after shutdown. */
    ghost var handles: nat
    ghost var closed: nat

    ghost predicate Valid()
      reads this
    {
      && size == |resources| + handles + closed
      && (closed > 0 ==> shutdown)
      && size <= Max(initialSize, maxSize)
    }

    /** `new` with `initialize`: creation may fail for any of the initial resources. */
    constructor (initialSize: nat, maxSize: nat, created: seq<Option<R>>)
      requires |created| == initialSize
      ensures Valid() && !shutdown && handles == 0
      ensures this.initialSize == initialSize && this.maxSize == maxSize
      ensures size == |resources| && resources == Values(created)
    {
      this.initialSize, this.maxSize := initialSize, maxSize;
      resources, size, shutdown, handles, closed := [], 0, false, 0, 0;
      new;
      assert [] + Values(created[0..]) == Values(created);
      for i := 0 to initialSize
        invariant size == |resources| <= i && !shutdown && handles == closed == 0
        invariant resources + Values(created[i..]) == Values(created)
      {
        NextValue(created, i, resources);
        if created[i].Some? {
          resources := resources + [created[i].value];
          size := size + 1;
        }
      }
    }

    /** Pops until a usable resource turns up; a popped resource becomes the caller's. */
    method GetResource(idle: R -> bool, sick: R -> bool, resets: R -> bool) returns (r: Option<R>)
      requires Valid()
      modifies this`resources, this`size, this`handles
      ensures Valid()
      ensures old(shutdown) ==> r.None? && resources == old(resources) && size == old(size)
      ensures !old(shutdown) ==>
                var n := Skipped(old(resources), x => idle(x) || sick(x) || !resets(x));
                && size == old(size) - n
                && if n == |old(resources)| then r.None? && resources == []
                   else r == Some(old(resources)[n]) && resources == old(resources)[n + 1..]
      ensures handles == old(handles) + if r.Some? then 1 else 0
    {
      if shutdown {
        return None;
      }
      ghost var unusable := x => idle(x) || sick(x) || !resets(x);
      ghost var dropped := 0;
      while |resources| > 0
        invariant dropped <= |old(resources)| && resources == old(resources)[dropped..]
        invariant size == old(size) - dropped && handles == old(handles) && Valid()
        invariant Skipped(old(resources), unusable) == dropped + Skipped(resources, unusable)
        decreases |resources|
      {
        var pooled := resources[0];
        resources := resources[1..];
        dropped := dropped + 1;
        if idle(pooled) || sick(pooled) || !resets(pooled) {
          size := size - 1;
          continue;
        }
        handles := handles + 1;
        return Some(pooled);
      }
      return None;
    }

    /** `try_acquire`: reuse, else create below the maximum, else report exhaustion. */
    method TryAcquire(idle: R -> bool, sick: R -> bool, resets: R -> bool, create: Option<R>) returns (r: Acquired<R>)
      requires Valid()
      modifies this`resources, this`size, this`handles
      ensures Valid()
      ensures r == Failure(PoolShutdown) <==> old(shutdown)
      ensures old(shutdown) ==> resources == old(resources) && size == old(size)
      ensures handles == old(handles) + if r.Handle? then 1 else 0
      ensures !old(shutdown) ==>
                var n := Skipped(old(resources), x => idle(x) || sick(x) || !resets(x));
                if n < |old(resources)| then
                  r == Handle(old(resources)[n]) && resources == old(resources)[n + 1..] && size == old(size) - n
                else
                  && resources == []
                  && size == old(size) - n + (if r.Handle? then 1 else 0)
                  && r == if old(size) - n >= maxSize then Failure(PoolExhausted)
                          else if create.Some? then Handle(create.value) else Failure(CreationFailed)
    {
      if shutdown {
        return Failure(PoolShutdown);
      }
      var got := GetResource(idle, sick, resets);
      if got.Some? {
        return Handle(got.value);
      }
      if size < maxSize {
        if create.None? {
          return Failure(CreationFailed);
        }
        size := size + 1;
        handles := handles + 1;
        return Handle(create.value);
      }
      return Failure(PoolExhausted);
    }

    /** Dropping a handle: the resource goes to the back of the queue, or is closed. */
    method ReturnResource(resource: R, valid: bool)
      requires Valid() && handles > 0
      modifies this`resources, this`size, this`handles, this`closed
      ensures Valid() && handles == old(handles) - 1
      ensures resources == if old(shutdown) || !valid then old(resources) else old(resources) + [resource]
      ensures size == if !old(shutdown) && !valid then old(size) - 1 else old(size)
    {
      handles := handles - 1;
      if shutdown {
        closed := closed + 1;
        return;
      }
      if !valid {
        size := size - 1;
        return;
      }
      resources := resources + [resource];
    }

    /** Closes everything in the queue; resources in handles stay counted. */
    method Shutdown()
      requires Valid()
      modifies this`resources, this`size, this`shutdown
      ensures Valid() && shutdown && resources == []
      ensures size == old(size) - |old(resources)|
    {
      shutdown := true;
      while |resources| > 0
        invariant Valid() && shutdown && size - |resources| == old(size) - |old(resources)|
        decreases |resources|
      {
        resources := resources[1..];
        size := size - 1;
      }
    }

    /** Removes idle and unhealthy resources in place; the others keep their order. */
    method Maintenance(idle: R -> bool, sick: R -> bool)
      requires Valid()
      modifies this`resources, this`size
      ensures Valid()
      ensures resources == Kept(old(resources), x => !idle(x) && !sick(x))
      ensures size - |resources| == old(size) - |old(resources)|
    {
      ghost var keep := x => !idle(x) && !sick(x);
      var i := 0;
      assert [] + Kept(resources[0..], keep) == Kept(resources, keep);
      while i < |resources|
        invariant 0 <= i <= |resources|
        invariant Valid() && size - |resources| == old(size) - |old(resources)|
        invariant resources[..i] + Kept(resources[i..], keep) == Kept(old(resources), keep)
        decreases |resources| - i
      {
        var r := resources[i];
        KeptAt(resources, i, keep);
        if idle(r) || sick(r) {
          RemoveAt(resources, i);
          resources := resources[..i] + resources[i + 1..];
          size := size - 1;
          continue;
        }
        i := i + 1;
      }
      assert resources[..i] == resources && resources[i..] == [];
    }
  }
}
