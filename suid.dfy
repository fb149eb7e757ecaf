/**
 * The stateful part of SUID: one generator per instance id, each with its own counter,
 * held in a registry of 256 generators built once, and the identifiers that successive
 * calls to a generator return.
 *
 * The clock is a parameter (`nowMillis`), not a call; the counter's atomic
 * increment-and-read is a single sequential update.
 */
module Suid {
  import opened JavaInt
  import opened SuidLayout
  import opened Wrappers

  /** One SUID object: its `AtomicLong` counter and the instance id it stamps into identifiers. */
  class Generator {
    var counter: Long
    var instanceId: Int

    /** The private constructor: the counter starts at 0 and the instance id at 0. */
    constructor ()
      ensures counter == 0 && instanceId == 0
    {
      counter := 0;
      instanceId := 0;
    }

    /**
     * `get()`: pre-increments the counter (so the first identifier carries increment 1),
     * then packs the clock, the new counter and the instance id. Only the counter changes.
     */
    method Get(nowMillis: Long) returns (id: Long)
      modifies this`counter
      ensures counter == Add(old(counter), 1)
      ensures id == Pack(nowMillis, counter, instanceId)
    {
      counter := Add(counter, 1);
      id := Pack(nowMillis, counter, instanceId);
    }
  }

  /** The `INSTANCES` table: generator i has instance id i, for i in 0..255. */
  class Registry {
    const instances: array<Generator?>

    ghost predicate Valid()
      reads this, instances, set j | 0 <= j < instances.Length :: instances[j]
    {
      && instances.Length == INSTANCE_SPAN
      && forall j :: 0 <= j < instances.Length ==> instances[j] != null && instances[j].instanceId == j
    }

    /**
     * The static initializer: for i = 0..xFF, creates a generator, sets its instance id to i
     * and stores it at index i. Every generator is a distinct new object with counter 0.
     */
    constructor ()
      ensures Valid() && fresh(instances)
      ensures forall j :: 0 <= j < INSTANCE_SPAN ==> fresh(instances[j]) && instances[j].counter == 0
      ensures forall j, k :: 0 <= j < k < INSTANCE_SPAN ==> instances[j] != instances[k]
    {
      var a := new Generator?[INSTANCE_SPAN];
      var i := 0;
      while i <= INSTANCE_MASK
        invariant 0 <= i <= INSTANCE_SPAN
        invariant forall j :: 0 <= j < i ==> a[j] != null && fresh(a[j])
        invariant forall j :: 0 <= j < i ==> a[j].instanceId == j && a[j].counter == 0
        invariant forall j, k :: 0 <= j < k < i ==> a[j] != a[k]
      {
        var instance := new Generator();
        instance.instanceId := i;
        a[i] := instance;
        i := i + 1;
      }
      instances := a;
    }

    /** `id(int)`: the generator for instance id i, or nothing when i is outside 0..xFF. */
    function Lookup(i: Int): (r: Option<Generator>)
      reads this, instances, set j | 0 <= j < instances.Length :: instances[j]
      requires Valid()
      ensures r.None? <==> i < 0 || i > INSTANCE_MASK
      ensures r.Some? ==> r.value == instances[i] && r.value.instanceId == i
    {
      if i < 0 || i > INSTANCE_MASK then None else Some(instances[i])
    }

    /** `id()`: the generator for instance id 0. */
    function Default(): (g: Generator)
      reads this, instances, set j | 0 <= j < instances.Length :: instances[j]
      requires Valid()
      ensures g.instanceId == 0 && Lookup(0) == Some(g)
    {
      instances[0]
    }

    /**
     * `id(i).get()`, as callers use it: advances generator i's counter by one and leaves
     * every other generator's counter alone. Nothing is issued for an i out of range.
     */
    method Next(i: Int, nowMillis: Long) returns (id: Option<Long>)
      requires Valid()
      modifies set j | 0 <= j < instances.Length :: instances[j]
      ensures Valid()
      ensures id.None? <==> i < 0 || i > INSTANCE_MASK
      ensures id.Some? ==> instances[i].counter == Add(old(instances[i].counter), 1)
      ensures id.Some? ==> id.value == Pack(nowMillis, instances[i].counter, i)
      ensures forall j :: 0 <= j < INSTANCE_SPAN && j != i ==> instances[j].counter == old(instances[j].counter)
      ensures forall j :: 0 <= j < INSTANCE_SPAN ==> instances[j] == old(instances[j])
    {
      var g := Lookup(i);
      if g.None? {
        return None;
      }
      var v := g.value.Get(nowMillis);
      return Some(v);
    }
  }

  /**
   * The identifiers that successive `get()` calls return on one generator, one call per
   * clock reading in nows, when its counter starts at counter.
   */
  function Issued(nows: seq<Long>, counter: Long, instanceId: Long): (ids: seq<Long>)
    ensures |ids| == |nows|
  {
    if nows == [] then []
    else
      var next := Add(counter, 1);
      [Pack(nows[0], next, instanceId)] + Issued(nows[1..], next, instanceId)
  }

  /** Wrapping before adding k wraps to the same `long` as adding k first. */
  lemma WrapAdd(c: Long, k: int)
    ensures Wrap(Add(c, 1) + k) == Wrap(c + k + 1)
  {
    var x := c + 1;
    var m := (Wrap(x) - x) / TWO_64;
    assert Wrap(x) + k + TWO_63 == (x + k + TWO_63) + m * TWO_64;
    ModAddMultiple(x + k + TWO_63, TWO_64, m);
  }

  /** Wrapping a `long` does not change it modulo 2^24. */
  lemma WrapModInc(x: int)
    ensures Wrap(x) % INC_SPAN == x % INC_SPAN
  {
    var m := (x - Wrap(x)) / TWO_64;
    assert x == Wrap(x) + (m * 0x100_0000_0000) * INC_SPAN;
    ModAddMultiple(Wrap(x), INC_SPAN, m * 0x100_0000_0000);
  }

  /** Past its first identifier, a run continues as the run from the incremented counter. */
  lemma IssuedTail(nows: seq<Long>, counter: Long, instanceId: Long, k: nat)
    requires 0 < k < |nows|
    ensures Issued(nows, counter, instanceId)[k] == Issued(nows[1..], Add(counter, 1), instanceId)[k - 1]
  {
  }

  /**
   * The k-th identifier of a run is what `get()` packs from the k-th clock reading and
   * the counter advanced k + 1 times, wrapping as a `long`.
   */
  lemma {:induction false} IssuedElement(nows: seq<Long>, counter: Long, instanceId: Long, k: nat)
    requires k < |nows|
    ensures Issued(nows, counter, instanceId)[k] == Pack(nows[k], Wrap(counter + k + 1), instanceId)
    decreases k
  {
    if k > 0 {
      IssuedTail(nows, counter, instanceId, k);
      IssuedElement(nows[1..], Add(counter, 1), instanceId, k - 1);
      assert nows[1..][k - 1] == nows[k];
      WrapAdd(counter, k);
    }
  }

  /**
   * The k-th identifier of a run carries the k-th clock reading's timestamp, the counter
   * advanced k + 1 times (modulo 2^24) and the generator's instance id.
   */
  lemma IssuedAt(nows: seq<Long>, counter: Long, instanceId: Long, k: nat)
    requires 0 <= instanceId < INSTANCE_SPAN && k < |nows|
    ensures IncOf(Issued(nows, counter, instanceId)[k]) == (counter + k + 1) % INC_SPAN
    ensures InstOf(Issued(nows, counter, instanceId)[k]) == instanceId
    ensures TimestampField(Issued(nows, counter, instanceId)[k]) == Timestamp(nows[k])
  {
    var c := Wrap(counter + k + 1);
    var id := Issued(nows, counter, instanceId)[k];
    assert id == Pack(nows[k], c, instanceId) by {
      IssuedElement(nows, counter, instanceId, k);
    }
    assert c % INC_SPAN == (counter + k + 1) % INC_SPAN by {
      WrapModInc(counter + k + 1);
    }
    PackFields(nows[k], c, instanceId);
  }

  /** Two counter values fewer than 2^24 apart differ modulo 2^24. */
  lemma DistinctModInc(x: int, d: int)
    requires 0 < d < INC_SPAN
    ensures (x + d) % INC_SPAN != x % INC_SPAN
  {
    var r := x % INC_SPAN;
    assert x == (x / INC_SPAN) * INC_SPAN + r;
    ModAddMultiple(r + d, INC_SPAN, x / INC_SPAN);
  }

  /**
   * No duplicates: at most 2^24 successive `get()` calls on one generator return
   * pairwise distinct identifiers, whatever the clock readings.
   */
  lemma IssuedDistinct(nows: seq<Long>, counter: Long, instanceId: Long)
    requires 0 <= instanceId < INSTANCE_SPAN && |nows| <= INC_SPAN
    ensures forall j, k :: 0 <= j < k < |nows| ==>
              Issued(nows, counter, instanceId)[j] != Issued(nows, counter, instanceId)[k]
  {
    var ids := Issued(nows, counter, instanceId);
    forall j, k | 0 <= j < k < |nows|
      ensures ids[j] != ids[k]
    {
      IssuedAt(nows, counter, instanceId, j);
      IssuedAt(nows, counter, instanceId, k);
      DistinctModInc(counter + j + 1, k - j);
    }
  }

  /** Generators with different instance ids never issue the same identifier. */
  lemma IssuedAcrossInstances(nows1: seq<Long>, c1: Long, i1: Long, nows2: seq<Long>, c2: Long, i2: Long)
    requires 0 <= i1 < INSTANCE_SPAN && 0 <= i2 < INSTANCE_SPAN && i1 != i2
    ensures forall j, k :: 0 <= j < |nows1| && 0 <= k < |nows2| ==>
              Issued(nows1, c1, i1)[j] != Issued(nows2, c2, i2)[k]
  {
    forall j, k | 0 <= j < |nows1| && 0 <= k < |nows2|
      ensures Issued(nows1, c1, i1)[j] != Issued(nows2, c2, i2)[k]
    {
      IssuedAt(nows1, c1, i1, j);
      IssuedAt(nows2, c2, i2, k);
    }
  }

  /** A non-empty run is its first identifier followed by the run from the incremented counter. */
  lemma IssuedStep(nows: seq<Long>, counter: Long, instanceId: Long)
    requires nows != []
    ensures Issued(nows, counter, instanceId)
         == [Pack(nows[0], Add(counter, 1), instanceId)] + Issued(nows[1..], Add(counter, 1), instanceId)
  {
  }

  /** The counter after n calls of `incrementAndGet`, starting from c. */
  function Advanced(c: Long, n: nat): Long
  {
    if n == 0 then c else Add(Advanced(c, n - 1), 1)
  }

  /** n increments of a `long` counter add n and wrap once. */
  lemma {:induction false} AdvancedWraps(c: Long, n: nat)
    ensures Advanced(c, n) == Wrap(c + n)
  {
    if n > 0 {
      AdvancedWraps(c, n - 1);
      CounterStep(c, n - 1, Advanced(c, n - 1));
    }
  }

  /** A counter that has wrapped to c0 + k moves on to c0 + k + 1, wrapped. */
  lemma CounterStep(c0: int, k: int, c: Long)
    requires c == Wrap(c0 + k)
    ensures Add(c, 1) == Wrap(c0 + (k + 1))
  {
    var x := c0 + k;
    var m := (c - x) / TWO_64;
    assert c + 1 + TWO_63 == (x + 1 + TWO_63) + m * TWO_64;
    ModAddMultiple(x + 1 + TWO_63, TWO_64, m);
  }

  /**
   * Successive `get()` calls on one generator, one per clock reading in nows, as the
   * duplication test in `main` makes them: they return exactly the run `Issued` describes,
   * and leave the counter advanced |nows| times.
   */
  method GetRun(g: Generator, nows: seq<Long>) returns (ids: seq<Long>)
    modifies g`counter
    ensures ids == Issued(nows, old(g.counter), g.instanceId)
    ensures g.counter == Wrap(old(g.counter) + |nows|)
  {
    ids := [];
    ghost var c0, instanceId := g.counter, g.instanceId;
    var k := 0;
    while k < |nows|
      invariant 0 <= k <= |nows| && g.instanceId == instanceId
      invariant g.counter == Advanced(c0, k)
      invariant Issued(nows, c0, instanceId) == ids + Issued(nows[k..], g.counter, instanceId)
    {
      ghost var c := g.counter;
      var id := g.Get(nows[k]);
      assert Issued(nows[k..], c, instanceId) == [id] + Issued(nows[k + 1..], g.counter, instanceId) by {
        IssuedStep(nows[k..], c, instanceId);
        assert nows[k..][1..] == nows[k + 1..];
      }
      ids := ids + [id];
      k := k + 1;
    }
    AdvancedWraps(c0, |nows|);
  }
}
