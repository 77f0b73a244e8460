/**
 The growable media buffer and the heap it draws on. The heap only counts: bytes live now and the
 most that were ever live at once. Whether an allocation succeeds is the caller's `grant`.
 */
module PodBuffers {
  const SIZE_MAX := 0xFFFF_FFFF

  function Max(a: int, b: int): int { if a < b then b else a }

  class MediaHeap {
    var live: int
    var peak: int

    constructor ()
      ensures live == 0 && peak == 0
    {
      live, peak := 0, 0;
    }

    method Acquire(bytes: nat, grant: bool)
      modifies this
      ensures live == old(live) + (if grant then bytes else 0)
      ensures peak == if grant then Max(old(peak), old(live) + bytes) else old(peak)
    {
      if grant {
        live := live + bytes;
        peak := Max(peak, live);
      }
    }

    method Release(bytes: nat)
      modifies this
      ensures live == old(live) - bytes && peak == old(peak)
    {
      live := live - bytes;
    }
  }

  /** The capacity a buffer of capacity `cap` takes on to hold `n` elements. */
  function NewCap(cap: nat, n: nat, maxCapacity: nat): (c: nat)
    requires n <= maxCapacity
    ensures n <= c <= maxCapacity
    ensures cap < n && 0 < cap ==> cap + c <= 3 * n
    ensures cap == 0 ==> c <= Max(16, n)
  {
    var doubled := if cap > 0 then (if cap > maxCapacity / 2 then maxCapacity else cap * 2) else 16;
    var bounded := if doubled > maxCapacity then maxCapacity else doubled;
    if bounded < n then n else bounded
  }

  /** Whether a resize succeeds, given that the heap would grant or refuse one allocation. */
  predicate CanResize(cap: nat, n: nat, maxCapacity: nat, grant: bool) {
    n <= maxCapacity && (n <= cap || grant)
  }

  function ResizedCap(cap: nat, n: nat, maxCapacity: nat): nat
    requires n <= maxCapacity
  {
    if n <= cap then cap else NewCap(cap, n, maxCapacity)
  }

  function Limit(elem: nat): nat
    requires elem > 0
  {
    SIZE_MAX / elem
  }

  lemma DifferenceOfProducts(a: int, b: int, c: int)
    ensures a * c - b * c == (a - b) * c
  {
  }

  class PodBuffer<T(0)> {
    const elem: nat
    const heap: MediaHeap
    var data: array<T>
    var size: nat

    ghost predicate Valid()
      reads this
    {
      elem > 0 && size <= data.Length
    }

    ghost function Contents(): seq<T>
      reads this, data
      requires Valid()
    {
      data[..size]
    }

    constructor (heap: MediaHeap, elem: nat)
      requires elem > 0
      ensures Valid() && this.heap == heap && this.elem == elem
      ensures fresh(data) && data.Length == 0 && size == 0
    {
      this.heap, this.elem := heap, elem;
      data, size := new T[0], 0;
    }

    /**
     A smaller size leaves the block alone, so what lies beyond it stays readable; growing keeps the elements
     held and needs the old and the new block at once; refusal changes nothing.
     */
    method Resize(n: nat, maxCapacity: nat, grant: bool) returns (ok: bool)
      requires Valid()
      modifies this, heap
      ensures Valid()
      ensures ok <==> CanResize(old(data.Length), n, Min(maxCapacity, Limit(elem)), grant)
      ensures !ok ==> data == old(data) && size == old(size) && heap.live == old(heap.live) && heap.peak == old(heap.peak)
      ensures ok ==> size == n && data.Length == ResizedCap(old(data.Length), n, Min(maxCapacity, Limit(elem)))
      ensures ok && n <= old(data.Length) ==> data == old(data) && heap.live == old(heap.live) && heap.peak == old(heap.peak)
      ensures ok && n > old(data.Length) ==>
                && fresh(data) && data[..old(size)] == old(data[..size])
                && heap.live == old(heap.live) + (data.Length - old(data.Length)) * elem
                && heap.peak == Max(old(heap.peak), old(heap.live) + data.Length * elem)
    {
      var limit := SIZE_MAX / elem;
      var most := if maxCapacity > limit then limit else maxCapacity;
      if n > most { return false; }
      if n <= data.Length {
        size := n;
        return true;
      }
      var cap := data.Length;
      var newCap := NewCap(cap, n, most);
      hide NewCap, Limit;
      heap.Acquire(newCap * elem, grant);
      if !grant { return false; }
      var p := new T[newCap];
      forall i | 0 <= i < size { p[i] := data[i]; }
      heap.Release(cap * elem);
      DifferenceOfProducts(newCap, cap, elem);
      data := p;
      size := n;
      return true;
    }

    /** Gives spare capacity back; the elements stay, also when the smaller block is refused. */
    method ShrinkToFit(grant: bool)
      requires Valid()
      modifies this, heap
      ensures Valid() && size == old(size) && data[..size] == old(data[..size])
      ensures data == old(data) || fresh(data)
      ensures data.Length == if grant || old(size) == 0 then old(size) else old(data.Length)
      ensures heap.live == old(heap.live) + (data.Length - old(data.Length)) * elem
      ensures heap.peak <= Max(old(heap.peak), old(heap.live) + (if old(size) < old(data.Length) then old(size) * elem else 0))
    {
      if data.Length == size { return; }
      if size == 0 {
        Clear();
        return;
      }
      heap.Acquire(size * elem, grant);
      if !grant { return; }
      var p := new T[size];
      forall i | 0 <= i < size { p[i] := data[i]; }
      heap.Release(data.Length * elem);
      DifferenceOfProducts(size, data.Length, elem);
      data := p;
    }

    method Clear()
      requires Valid()
      modifies this, heap
      ensures Valid() && size == 0 && data.Length == 0 && fresh(data)
      ensures heap.live == old(heap.live) - old(data.Length) * elem && heap.peak == old(heap.peak)
    {
      heap.Release(data.Length * elem);
      data, size := new T[0], 0;
    }

    /** The move assignment: takes the other's block over and lets go of its own. */
    method MoveFrom(other: PodBuffer<T>)
      requires Valid() && other.Valid() && other.elem == elem && other.heap == heap
      modifies this, other, heap
      ensures Valid() && other.Valid()
      ensures other == this ==> data == old(data) && size == old(size) && heap.live == old(heap.live)
      ensures other != this ==> data == old(other.data) && size == old(other.size) && other.size == 0 && other.data.Length == 0
      ensures other != this ==> heap.live == old(heap.live) - old(data.Length) * elem && fresh(other.data)
      ensures heap.peak == old(heap.peak)
    {
      if this == other { return; }
      heap.Release(data.Length * elem);
      data, size := other.data, other.size;
      other.data, other.size := new T[0], 0;
    }
  }

  function Min(a: int, b: int): int { if b < a then b else a }
}
