/**
  The bounded FIFO object pool of NexusCore. Idle objects wait in a queue; Acquire
  hands out the oldest idle object, or a newly allocated one when none is idle;
  Release returns an object to the back of the queue while the queue is below its
  maximum size and discards it otherwise.
 */
module MemoryPool {

  import opened Wrappers

  /** A default-constructed object of the pooled type. */
  class PooledObject {
    constructor ()
    {
    }
  }

  function Max(a: nat, b: nat): nat
  {
    if a < b then b else a
  }

  // ---------------------------------------------------------------------------
  // The queue discipline on values
  // ---------------------------------------------------------------------------

  /** The object Acquire hands out of this idle queue; None when it must allocate a new one. */
  function Acquired<T>(pool: seq<T>): (r: Option<T>)
    ensures r.Some? <==> pool != []
    ensures r.Some? ==> r.value == pool[0]
  {
    if pool == [] then None else Some(pool[0])
  }

  /** The idle queue after Acquire. */
  function PoolAfterAcquire<T>(pool: seq<T>): (r: seq<T>)
    ensures pool == [] ==> r == []
    ensures pool != [] ==> [pool[0]] + r == pool
  {
    if pool == [] then [] else pool[1..]
  }

  /** The idle queue after Release of `obj` (None stands for a null pointer). */
  function PoolAfterRelease<T>(pool: seq<T>, maxSize: nat, obj: Option<T>): (r: seq<T>)
    ensures obj.Some? && |pool| < maxSize ==> r == pool + [obj.value]
    ensures obj.None? || |pool| >= maxSize ==> r == pool
  {
    match obj
    case None => pool
    case Some(o) => if |pool| < maxSize then pool + [o] else pool
  }

  /** One call on the pool. */
  datatype PoolOp<T> = AcquireOp | ReleaseOp(obj: Option<T>)

  function Step<T>(pool: seq<T>, maxSize: nat, op: PoolOp<T>): seq<T>
  {
    match op
    case AcquireOp => PoolAfterAcquire(pool)
    case ReleaseOp(obj) => PoolAfterRelease(pool, maxSize, obj)
  }

  /** The idle queue after a sequence of calls. */
  function FinalPool<T>(pool: seq<T>, maxSize: nat, ops: seq<PoolOp<T>>): seq<T>
    decreases |ops|
  {
    if ops == [] then pool else FinalPool(Step(pool, maxSize, ops[0]), maxSize, ops[1..])
  }

  /** What one call hands out: the result of an Acquire, nothing for a Release. */
  function StepHanded<T>(pool: seq<T>, op: PoolOp<T>): seq<Option<T>>
  {
    if op.AcquireOp? then [Acquired(pool)] else []
  }

  /** What each Acquire of a sequence of calls handed out, in order (None: a newly allocated object). */
  function Handed<T>(pool: seq<T>, maxSize: nat, ops: seq<PoolOp<T>>): seq<Option<T>>
    decreases |ops|
  {
    if ops == [] then []
    else StepHanded(pool, ops[0]) + Handed(Step(pool, maxSize, ops[0]), maxSize, ops[1..])
  }

  /** A run of Release calls, one per object. */
  function Releases<T>(objs: seq<T>): (ops: seq<PoolOp<T>>)
    ensures |ops| == |objs|
    ensures forall i :: 0 <= i < |objs| ==> ops[i] == ReleaseOp(Some(objs[i]))
  {
    if objs == [] then [] else [ReleaseOp(Some(objs[0]))] + Releases(objs[1..])
  }

  /** A run of n Acquire calls. */
  function Acquires<T>(n: nat): (ops: seq<PoolOp<T>>)
    ensures |ops| == n
    ensures forall i :: 0 <= i < n ==> ops[i] == AcquireOp
  {
    if n == 0 then [] else [AcquireOp] + Acquires(n - 1)
  }

  function Wrapped<T>(objs: seq<T>): (r: seq<Option<T>>)
    ensures |r| == |objs|
    ensures forall i :: 0 <= i < |objs| ==> r[i] == Some(objs[i])
  {
    if objs == [] then [] else [Some(objs[0])] + Wrapped(objs[1..])
  }

  /** No call sequence lets the idle queue outgrow the larger of its starting size and the maximum size. */
  lemma {:induction false} FinalPoolBounded<T>(pool: seq<T>, maxSize: nat, ops: seq<PoolOp<T>>)
    ensures |FinalPool(pool, maxSize, ops)| <= Max(|pool|, maxSize)
  {
    FinalPoolWithin(pool, maxSize, ops, Max(|pool|, maxSize));
  }

  lemma {:induction false} FinalPoolWithin<T>(pool: seq<T>, maxSize: nat, ops: seq<PoolOp<T>>, bound: nat)
    requires |pool| <= bound && maxSize <= bound
    ensures |FinalPool(pool, maxSize, ops)| <= bound
    decreases |ops|
  {
    if ops != [] {
      FinalPoolWithin(Step(pool, maxSize, ops[0]), maxSize, ops[1..], bound);
    }
  }

  /** Running two call sequences one after the other. */
  lemma {:induction false} RunAppend<T>(pool: seq<T>, maxSize: nat, a: seq<PoolOp<T>>, b: seq<PoolOp<T>>)
    ensures FinalPool(pool, maxSize, a + b) == FinalPool(FinalPool(pool, maxSize, a), maxSize, b)
    ensures Handed(pool, maxSize, a + b) == Handed(pool, maxSize, a) + Handed(FinalPool(pool, maxSize, a), maxSize, b)
  {
    FinalPoolAppend(pool, maxSize, a, b);
    HandedAppend(pool, maxSize, a, b);
  }

  lemma {:induction false} FinalPoolAppend<T>(pool: seq<T>, maxSize: nat, a: seq<PoolOp<T>>, b: seq<PoolOp<T>>)
    ensures FinalPool(pool, maxSize, a + b) == FinalPool(FinalPool(pool, maxSize, a), maxSize, b)
    decreases |a|
  {
    if a == [] {
      assert a + b == b;
    } else {
      var next := Step(pool, maxSize, a[0]);
      assert (a + b)[0] == a[0] && (a + b)[1..] == a[1..] + b;
      assert FinalPool(pool, maxSize, a + b) == FinalPool(next, maxSize, a[1..] + b);
      assert FinalPool(pool, maxSize, a) == FinalPool(next, maxSize, a[1..]);
      FinalPoolAppend(next, maxSize, a[1..], b);
    }
  }

  lemma {:induction false} HandedAppend<T>(pool: seq<T>, maxSize: nat, a: seq<PoolOp<T>>, b: seq<PoolOp<T>>)
    ensures Handed(pool, maxSize, a + b) == Handed(pool, maxSize, a) + Handed(FinalPool(pool, maxSize, a), maxSize, b)
    decreases |a|
  {
    if a == [] {
      assert a + b == b;
    } else {
      var next := Step(pool, maxSize, a[0]);
      var here := StepHanded(pool, a[0]);
      assert (a + b)[0] == a[0] && (a + b)[1..] == a[1..] + b;
      assert FinalPool(pool, maxSize, a) == FinalPool(next, maxSize, a[1..]);
      HandedAppend(next, maxSize, a[1..], b);
      calc {
        Handed(pool, maxSize, a + b);
        here + Handed(next, maxSize, a[1..] + b);
        here + (Handed(next, maxSize, a[1..]) + Handed(FinalPool(next, maxSize, a[1..]), maxSize, b));
        (here + Handed(next, maxSize, a[1..])) + Handed(FinalPool(pool, maxSize, a), maxSize, b);
      }
    }
  }

  /** Releases that all fit append the objects, in order, and hand out nothing. */
  lemma {:induction false} ReleasesAppend<T>(pool: seq<T>, maxSize: nat, objs: seq<T>)
    requires |pool| + |objs| <= maxSize
    ensures FinalPool(pool, maxSize, Releases(objs)) == pool + objs
    ensures Handed(pool, maxSize, Releases(objs)) == []
    decreases |objs|
  {
    if objs != [] {
      var ops := Releases(objs);
      var next := pool + [objs[0]];
      assert ops[0] == ReleaseOp(Some(objs[0])) && ops[1..] == Releases(objs[1..]);
      assert Step(pool, maxSize, ops[0]) == next;
      assert StepHanded(pool, ops[0]) == [];
      ReleasesAppend(next, maxSize, objs[1..]);
      assert FinalPool(pool, maxSize, ops) == FinalPool(next, maxSize, ops[1..]);
      assert Handed(pool, maxSize, ops) == [] + Handed(next, maxSize, ops[1..]);
      assert next + objs[1..] == pool + objs;
    }
  }

  /** Draining the idle queue hands its objects out front to back and leaves it empty. */
  lemma {:induction false} AcquiresDrain<T>(pool: seq<T>, maxSize: nat)
    ensures FinalPool(pool, maxSize, Acquires(|pool|)) == []
    ensures Handed(pool, maxSize, Acquires(|pool|)) == Wrapped(pool)
    decreases |pool|
  {
    if pool != [] {
      var ops: seq<PoolOp<T>> := Acquires(|pool|);
      assert ops[1..] == Acquires(|pool| - 1);
      AcquiresDrain(pool[1..], maxSize);
    }
  }

  /** FIFO: objects released into a pool come back out of Acquire after the ones already idle, in release order. */
  lemma {:induction false} AcquireFollowsReleaseOrder<T>(pool: seq<T>, maxSize: nat, objs: seq<T>)
    requires |pool| + |objs| <= maxSize
    ensures Handed(pool, maxSize, Releases(objs) + Acquires(|pool| + |objs|)) == Wrapped(pool + objs)
  {
    RunAppend(pool, maxSize, Releases(objs), Acquires(|pool| + |objs|));
    ReleasesAppend(pool, maxSize, objs);
    AcquiresDrain(pool + objs, maxSize);
  }

  /** The idle objects among the results of a sequence of Acquire calls, in order (new objects dropped). */
  function Somes<T>(s: seq<Option<T>>): (r: seq<T>)
    ensures |r| <= |s|
  {
    if s == [] then [] else (if s[0].Some? then [s[0].value] else []) + Somes(s[1..])
  }

  lemma {:induction false} SomesAppend<T>(a: seq<Option<T>>, b: seq<Option<T>>)
    ensures Somes(a + b) == Somes(a) + Somes(b)
    decreases |a|
  {
    if a == [] {
      assert a + b == b;
    } else {
      assert (a + b)[0] == a[0] && (a + b)[1..] == a[1..] + b;
      SomesAppend(a[1..], b);
    }
  }

  /** What one call enqueues: a non-null object released while the pool is below its maximum. */
  function StepAccepted<T>(pool: seq<T>, maxSize: nat, op: PoolOp<T>): (r: seq<T>)
    ensures |r| <= 1
    ensures r != [] <==> op.ReleaseOp? && op.obj.Some? && |pool| < maxSize
    ensures r != [] ==> op == ReleaseOp(Some(r[0]))
  {
    if op.ReleaseOp? && op.obj.Some? && |pool| < maxSize then [op.obj.value] else []
  }

  /** The objects that the Release calls of a sequence actually enqueue, in call order. */
  function Accepted<T>(pool: seq<T>, maxSize: nat, ops: seq<PoolOp<T>>): (r: seq<T>)
    ensures |r| <= |ops|
    ensures forall x :: x in r ==> ReleaseOp(Some(x)) in ops
    decreases |ops|
  {
    if ops == [] then []
    else StepAccepted(pool, maxSize, ops[0]) + Accepted(Step(pool, maxSize, ops[0]), maxSize, ops[1..])
  }

  /** One call: what it hands out, followed by the new idle queue, is the old queue followed by what it enqueues. */
  lemma StepConserves<T>(pool: seq<T>, maxSize: nat, op: PoolOp<T>)
    ensures Somes(StepHanded(pool, op)) + Step(pool, maxSize, op) == pool + StepAccepted(pool, maxSize, op)
  {
    if op.AcquireOp? && pool != [] {
      assert Somes(StepHanded(pool, op)) == [pool[0]];
      assert pool == [pool[0]] + pool[1..];
    }
  }

  /**
    FIFO for every call sequence, interleaved, partial or with discarded releases:
    the idle objects Acquire hands out, followed by what is still idle, are exactly
    the starting idle objects followed by the enqueued releases, in order. So the
    handed-out objects are a prefix of that queue.
   */
  lemma {:induction false} HandedThenIdleIsAccepted<T>(pool: seq<T>, maxSize: nat, ops: seq<PoolOp<T>>)
    ensures Somes(Handed(pool, maxSize, ops)) + FinalPool(pool, maxSize, ops) == pool + Accepted(pool, maxSize, ops)
    ensures Somes(Handed(pool, maxSize, ops)) <= pool + Accepted(pool, maxSize, ops)
    decreases |ops|
  {
    if ops == [] {
      assert Somes(Handed(pool, maxSize, ops)) == [];
    } else {
      var op := ops[0];
      var next := Step(pool, maxSize, op);
      var here := StepHanded(pool, op);
      var restHanded := Handed(next, maxSize, ops[1..]);
      var final := FinalPool(next, maxSize, ops[1..]);
      var restAccepted := Accepted(next, maxSize, ops[1..]);
      assert Handed(pool, maxSize, ops) == here + restHanded;
      assert FinalPool(pool, maxSize, ops) == final;
      assert Accepted(pool, maxSize, ops) == StepAccepted(pool, maxSize, op) + restAccepted;
      HandedThenIdleIsAccepted(next, maxSize, ops[1..]);
      SomesAppend(here, restHanded);
      StepConserves(pool, maxSize, op);
      RegroupConcat(Somes(here), Somes(restHanded), final, next, restAccepted, pool, StepAccepted(pool, maxSize, op));
    }
  }

  /** The queue algebra of one inductive step: regrouping concatenations along two known equalities. */
  lemma RegroupConcat<T>(h: seq<T>, rh: seq<T>, f: seq<T>, n: seq<T>, ra: seq<T>, p: seq<T>, sa: seq<T>)
    requires rh + f == n + ra
    requires h + n == p + sa
    ensures (h + rh) + f == p + (sa + ra)
    ensures h + rh <= p + (sa + ra)
  {
    calc {
      (h + rh) + f;
      h + (rh + f);
      h + (n + ra);
      (h + n) + ra;
      (p + sa) + ra;
      p + (sa + ra);
    }
  }

  /** Acquire on an empty pool hands out a new object every time and the pool stays empty. */
  lemma {:induction false} EmptyPoolAlwaysAllocates<T>(maxSize: nat, n: nat)
    ensures FinalPool([], maxSize, Acquires<T>(n)) == []
    ensures forall i :: 0 <= i < |Handed([], maxSize, Acquires<T>(n))| ==>
      Handed([], maxSize, Acquires<T>(n))[i] == None
    ensures |Handed([], maxSize, Acquires<T>(n))| == n
  {
    if n > 0 {
      var ops: seq<PoolOp<T>> := Acquires(n);
      assert ops[1..] == Acquires(n - 1);
      EmptyPoolAlwaysAllocates<T>(maxSize, n - 1);
    }
  }

  // ---------------------------------------------------------------------------
  // The pool object
  // ---------------------------------------------------------------------------

  class MemoryPool {
    /** The idle objects, front first. */
    var pool: seq<PooledObject>
    const maxSize: nat
    /** The larger of the initial size and the maximum size: the pool never holds more. */
    ghost const capacity: nat

    /** Every idle object is held once, and the queue respects the capacity. */
    ghost predicate Valid()
      reads this
    {
      |pool| <= capacity && maxSize <= capacity && Distinct(pool)
    }

    /** Pre-fills the pool with `initialSize` newly allocated objects. */
    constructor (initialSize: nat := 100, maxSize: nat := 1000)
      ensures Valid()
      ensures this.maxSize == maxSize && capacity == Max(initialSize, maxSize)
      ensures |pool| == initialSize
      ensures forall o :: o in pool ==> fresh(o)
    {
      this.maxSize := maxSize;
      capacity := Max(initialSize, maxSize);
      pool := [];
      new;
      var i := 0;
      while i < initialSize
        invariant i <= initialSize
        invariant |pool| == i
        invariant Distinct(pool)
        invariant forall o :: o in pool ==> fresh(o)
      {
        var o := new PooledObject();
        pool := pool + [o];
        i := i + 1;
      }
    }

    /** Hands out the front idle object, or a newly allocated one when the pool is empty. */
    method Acquire() returns (obj: PooledObject)
      requires Valid()
      modifies this
      ensures Valid()
      ensures old(pool) == [] ==> fresh(obj) && pool == []
      ensures old(pool) != [] ==> obj == old(pool)[0] && pool == old(pool)[1..]
      ensures pool == PoolAfterAcquire(old(pool))
      ensures Acquired(old(pool)).Some? ==> obj == Acquired(old(pool)).value
      ensures obj !in pool
    {
      if pool == [] {
        obj := new PooledObject();
        return;
      }
      obj := pool[0];
      pool := pool[1..];
    }

    /**
      Takes back ownership of `obj`. Because the caller owns it exclusively, it is
      not one of the idle objects. A null object is ignored; a full pool discards it.
     */
    method Release(obj: PooledObject?)
      requires Valid()
      requires obj !in pool
      modifies this
      ensures Valid()
      ensures obj == null ==> pool == old(pool)
      ensures obj != null && |old(pool)| < maxSize ==> pool == old(pool) + [obj]
      ensures obj != null && |old(pool)| >= maxSize ==> pool == old(pool)
      ensures pool == PoolAfterRelease(old(pool), maxSize, if obj == null then None else Some(obj))
    {
      if obj == null {
        return;
      }
      if |pool| < maxSize {
        pool := pool + [obj];
      }
    }

    /** The number of idle objects. */
    method GetPoolSize() returns (n: nat)
      requires Valid()
      ensures n == |pool| && n <= capacity
    {
      n := |pool|;
    }
  }

  /** A client call sequence: two objects released into an empty pool come back in release order. */
  method ReleaseThenAcquireInOrder(a: PooledObject, b: PooledObject) returns (first: PooledObject, second: PooledObject)
    requires a != b
    ensures first == a && second == b
  {
    var p := new MemoryPool(0, 2);
    p.Release(a);
    p.Release(b);
    var n := p.GetPoolSize();
    assert n == 2;
    first := p.Acquire();
    second := p.Acquire();
    n := p.GetPoolSize();
    assert n == 0;
  }
}
