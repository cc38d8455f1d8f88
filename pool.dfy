/** The slot pool of syncDirectory (sync.go): a buffered channel that
    starts holding 0 … n-1; a task takes a slot from the front before it
    starts and puts it back at the end when it finishes. The channel is
    modelled sequentially as a FIFO sequence; a receive that would block
    is reported as None. */
module Pool {
  import opened Wrappers

  /** The numbers lo, lo+1, …, hi-1. */
  function Range(lo: int, hi: int): (r: seq<int>)
    ensures |r| == if lo <= hi then hi - lo else 0
    ensures forall k :: 0 <= k < |r| ==> r[k] == lo + k
    decreases hi - lo
  {
    if lo >= hi then [] else [lo] + Range(lo + 1, hi)
  }

  class SlotPool {
    /** The channel capacity, maxConcurrent. */
    const size: nat
    /** The slots in the channel, front first. */
    var free: seq<int>
    /** The slots owned by running tasks. */
    ghost var held: set<int>
    /** How many slots have been taken so far. */
    ghost var taken: nat

    ghost predicate Valid()
      reads this
    {
      (forall i, j :: 0 <= i < j < |free| ==> free[i] != free[j]) &&
      (forall s :: s in free ==> 0 <= s < size && s !in held) &&
      (forall s :: s in held ==> 0 <= s < size) &&
      (forall s :: 0 <= s < size ==> s in free || s in held) &&
      |free| + |held| == size &&
      (taken <= size ==> |free| >= size - taken && free[..size - taken] == Range(taken, size))
    }

    /** make(chan int, n) filled with 0 … n-1. */
    constructor (n: nat)
      ensures Valid() && size == n
      ensures free == Range(0, n) && held == {} && taken == 0
    {
      var q: seq<int> := [];
      var i := 0;
      while i < n
        invariant 0 <= i <= n
        invariant q == Range(0, i)
      {
        q := q + [i];
        i := i + 1;
      }
      size := n;
      free := q;
      held := {};
      taken := 0;
      new;
      assert forall s :: 0 <= s < n ==> free[s] == s;
      assert forall s :: s in free ==> 0 <= s < n;
      forall s | 0 <= s < size ensures s in free {
        assert free[s] == s;
      }
      assert |held| == 0;
      assert free[..size] == free;
    }

    /** `slot := <-slotChan`: the front slot, now held; None when the
        channel is empty and the receive would block. */
    method Acquire() returns (slot: Option<int>)
      requires Valid()
      modifies this
      ensures Valid()
      ensures slot.None? <==> old(free) == []
      ensures slot.None? ==> free == old(free) && held == old(held) && taken == old(taken)
      ensures slot.Some? ==> slot.value == old(free)[0] && free == old(free)[1..] &&
                             held == old(held) + {slot.value} && slot.value !in old(held) &&
                             taken == old(taken) + 1
      ensures slot.Some? && old(taken) < size ==> slot.value == old(taken)
      ensures slot.Some? ==> 0 <= slot.value < size
    {
      if free == [] {
        return None;
      }
      var s := free[0];
      assert s in free;
      assert forall x :: x in free[1..] ==> x in free && x != s;
      free := free[1..];
      held := held + {s};
      if taken < size {
        assert Range(taken, size)[1..] == Range(taken + 1, size);
      }
      taken := taken + 1;
      slot := Some(s);
    }

    /** `slotChan <- slot` from the deferred function of a finishing task. */
    method Release(slot: int)
      requires Valid() && slot in held
      modifies this
      ensures Valid() && taken == old(taken)
      ensures free == old(free) + [slot] && held == old(held) - {slot}
    {
      if taken <= size {
        assert (free + [slot])[..size - taken] == free[..size - taken];
      }
      free := free + [slot];
      held := held - {slot};
    }

    /** At most `size` slots are held at once, and never one twice. */
    lemma HeldBound()
      requires Valid()
      ensures |held| <= size
      ensures forall s :: s in held ==> s !in free
    {
    }
  }

  /** With fewer tasks than slots every task gets a slot below the number
      of tasks: the k-th slot taken is k as long as k < n, whatever was
      returned in between. */
  method TakeInOrder(n: nat, tasks: nat) returns (slots: seq<int>)
    requires tasks <= n
    ensures |slots| == tasks
    ensures forall k :: 0 <= k < tasks ==> slots[k] == k
  {
    var pool := new SlotPool(n);
    slots := [];
    var k := 0;
    while k < tasks
      invariant 0 <= k <= tasks
      invariant pool.Valid() && pool.size == n && pool.taken == k
      invariant |slots| == k && forall j :: 0 <= j < k ==> slots[j] == j
      invariant |pool.free| >= n - k
    {
      var s := pool.Acquire();
      slots := slots + [s.value];
      pool.Release(s.value);
      k := k + 1;
    }
  }
}
