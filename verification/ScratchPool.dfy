/**
 The workspace all live decoders share. Each decoder holds a claim; claims that ask for something are
 linked into one intrusive doubly linked list.
 */
module ScratchPools {
  import opened PodBuffers

  class ScratchClaim {
    var prev: ScratchClaim?
    var next: ScratchClaim?
    var words: nat

    constructor ()
      ensures prev == null && next == null && words == 0
    {
      prev, next, words := null, null, 0;
    }
  }

  /** The list with one claim taken out, and with one claim standing in another's place. */
  ghost function Removed(claims: seq<ScratchClaim>, c: ScratchClaim): seq<ScratchClaim> {
    if claims == [] then [] else if claims[0] == c then claims[1..] else [claims[0]] + Removed(claims[1..], c)
  }

  ghost function Renamed(claims: seq<ScratchClaim>, from: ScratchClaim, to: ScratchClaim): (r: seq<ScratchClaim>)
    ensures |r| == |claims|
    ensures forall i :: 0 <= i < |claims| ==> r[i] == if claims[i] == from then to else claims[i]
  {
    seq(|claims|, i requires 0 <= i < |claims| => if claims[i] == from then to else claims[i])
  }

  lemma {:induction false} RemovedAt(claims: seq<ScratchClaim>, k: nat)
    requires k < |claims| && forall i :: 0 <= i < k ==> claims[i] != claims[k]
    ensures Removed(claims, claims[k]) == claims[..k] + claims[k + 1..]
  {
    if k > 0 {
      RemovedAt(claims[1..], k - 1);
      assert claims[1..][..k - 1] == claims[1..k] && claims[1..][k..] == claims[k + 1..];
    }
  }

  lemma {:induction false} NotRemoved(claims: seq<ScratchClaim>, c: ScratchClaim)
    requires c !in claims
    ensures Removed(claims, c) == claims
  {
    if claims != [] { NotRemoved(claims[1..], c); }
  }

  ghost function Before(claims: seq<ScratchClaim>, i: int): ScratchClaim? {
    if 0 < i <= |claims| then claims[i - 1] else null
  }

  ghost function After(claims: seq<ScratchClaim>, i: int): ScratchClaim? {
    if -1 <= i < |claims| - 1 then claims[i + 1] else null
  }

  /** Every claim that stays keeps its neighbours, except across the gap. */
  lemma Closed(was: seq<ScratchClaim>, k: nat, i: nat)
    requires k < |was| && i < |was| - 1
    ensures After(was[..k] + was[k + 1..], -1) == After(was, if k == 0 then 0 else -1)
    ensures var (now, j) := (was[..k] + was[k + 1..], if i < k then i else i + 1);
            && now[i] == was[j] && j != k
            && After(now, i) == After(was, if j == k - 1 then k else j)
            && Before(now, i) == Before(was, if j == k + 1 then k else j)
  {
  }

  ghost predicate Distinct(claims: seq<ScratchClaim>) {
    forall i, j :: 0 <= i < j < |claims| ==> claims[i] != claims[j]
  }

  lemma OnlyAt(claims: seq<ScratchClaim>, k: int)
    requires Distinct(claims)
    ensures 0 <= k < |claims| ==> forall i :: 0 <= i < |claims| && i != k ==> claims[i] != claims[k]
  {
  }

  lemma DistinctBefore(claims: seq<ScratchClaim>, k: nat)
    requires Distinct(claims) && k < |claims|
    ensures forall i :: 0 <= i < k ==> claims[i] != claims[k]
  {
  }

  lemma DistinctWithout(claims: seq<ScratchClaim>, k: nat)
    requires Distinct(claims) && k < |claims|
    ensures Distinct(claims[..k] + claims[k + 1..])
  {
  }

  lemma DistinctWith(claims: seq<ScratchClaim>, c: ScratchClaim)
    requires Distinct(claims) && c !in claims
    ensures Distinct([c] + claims)
  {
  }

  lemma DistinctRenamed(claims: seq<ScratchClaim>, from: ScratchClaim, to: ScratchClaim)
    requires Distinct(claims) && to !in claims
    ensures Distinct(Renamed(claims, from, to))
  {
  }

  lemma NotRenamed(claims: seq<ScratchClaim>, from: ScratchClaim, to: ScratchClaim)
    ensures from !in claims ==> Renamed(claims, from, to) == claims
  {
  }

  /** What a first block for this many words takes. */
  function Block(words: nat): nat { if words == 0 then 0 else Max(16, words) }

  /** Whether a workspace of this size serves a request, if the heap would grant or refuse a new block. */
  predicate Serves(size: nat, words: nat, grant: bool) { size >= words || CanResize(0, words, Limit(2), grant) }

  /** A block too small goes before a larger one is asked for. */
  function SizeAfter(size: nat, words: nat, grant: bool): nat {
    if size >= words then size else if Serves(size, words, grant) then words else 0
  }

  class ScratchPool {
    var head: ScratchClaim?
    const workspace: PodBuffer<int>
    ghost var claims: seq<ScratchClaim>  // the list, from its head
    ghost var live: set<ScratchClaim>    // every claim constructed and not yet destroyed

    constructor (heap: MediaHeap)
      ensures Valid() && claims == [] && live == {} && fresh(workspace)
      ensures workspace.heap == heap && workspace.size == 0 && workspace.data.Length == 0 && workspace.elem == 2
    {
      head, claims, live := null, [], {};
      workspace := new PodBuffer<int>(heap, 2);
    }

    /** The links agree in both directions and run through exactly the claims that ask for something. */
    ghost predicate Linked()
      reads this, live
    {
      && (forall i :: 0 <= i < |claims| ==> claims[i] in live && claims[i].words > 0)
      && Distinct(claims)
      && head == After(claims, -1)
      && (forall i {:trigger claims[i].prev} :: 0 <= i < |claims| ==> claims[i].prev == Before(claims, i))
      && (forall i {:trigger claims[i].next} :: 0 <= i < |claims| ==> claims[i].next == After(claims, i))
      && (forall c :: c in live && c !in claims ==> c.words == 0 && c.prev == null && c.next == null)
    }

    /**
     The workspace is never larger than the largest claim, and its block no larger than that takes; without
     claims there is no block.
     */
    ghost predicate Valid()
      reads this, live, workspace
    {
      && Linked() && workspace.Valid() && workspace.elem == 2
      && workspace.data.Length == Block(workspace.size)
      && (workspace.size > 0 ==> exists i :: 0 <= i < |claims| && claims[i].words >= workspace.size)
    }

    /** The heap holds as much more or less as the block has grown or shrunk. */
    twostate predicate Accounted()
      reads workspace, workspace.heap
    {
      workspace.heap.live == old(workspace.heap.live) + (workspace.data.Length - old(workspace.data.Length)) * 2
    }

    lemma InList(c: ScratchClaim) returns (k: nat)
      requires Linked() && c in live && c.words > 0
      ensures k < |claims| && claims[k] == c
    {
      k :| 0 <= k < |claims| && claims[k] == c;
    }

    method Register(c: ScratchClaim)
      requires Valid() && c !in live && c.words == 0 && c.prev == null && c.next == null
      modifies this`live
      ensures Valid() && live == old(live) + {c} && claims == old(claims)
    {
      live := live + {c};
    }

    /** A claim's first request: it enters the list at the head. */
    method Enter(c: ScratchClaim, words: nat)
      requires Linked() && c in live && c.words == 0 && words > 0
      modifies this`head, this`claims, c, live
      ensures Linked() && live == old(live) && claims == [c] + old(claims) && c.words == words
      ensures forall x :: x in live && x != c ==> x.words == old(x.words)
    {
      assert c !in claims;
      ghost var was := claims;
      DistinctWith(was, c);
      OnlyAt(was, 0);
      hide Distinct;
      c.next := head;
      if head != null { head.prev := c; }
      head := c;
      claims := [c] + claims;
      c.words := words;
      assert forall i :: 0 < i < |claims| ==> claims[i] == was[i - 1];
    }

    /** The workspace grows only when it is too small, and never holds old and new block at once. */
    method Acquire(c: ScratchClaim, words: nat, grant: bool) returns (ok: bool)
      requires Valid() && c in live && words > 0
      modifies this`head, this`claims, live, workspace, workspace.heap
      ensures Valid() && live == old(live)
      ensures claims == if old(c.words) > 0 then old(claims) else [c] + old(claims)
      ensures c.words == Max(old(c.words), words)
      ensures forall x :: x in live && x != c ==> x.words == old(x.words)
      ensures ok ==> workspace.size >= words
      ensures ok <==> Serves(old(workspace.size), words, grant)
      ensures workspace.size == SizeAfter(old(workspace.size), words, grant)
      ensures Accounted()
      ensures workspace.heap.peak == if ok && old(workspace.size) < words
                                     then Max(old(workspace.heap.peak), workspace.heap.live) else old(workspace.heap.peak)
    {
      Demand(c, words);
      hide Linked;
      ok := true;
      if workspace.size < words {
        workspace.Clear();
        ok := workspace.Resize(words, SIZE_MAX, grant);
      }
    }

    method Demand(c: ScratchClaim, words: nat)
      requires Valid() && c in live && words > 0
      modifies this`head, this`claims, live
      ensures Valid() && live == old(live)
      ensures claims == if old(c.words) > 0 then old(claims) else [c] + old(claims)
      ensures c in claims && c.words == Max(old(c.words), words)
      ensures forall x :: x in live && x != c ==> x.words == old(x.words)
    {
      hide Distinct, Before, After;
      ghost var was := claims;
      if c.words == 0 {
        Enter(c, words);
        assert forall i :: 0 <= i < |was| ==> claims[i + 1] == was[i];
        assert claims[0] == c;
      } else {
        ghost var k := InList(c);
        if words > c.words { c.words := words; }
      }
    }

    /** Links a claim's neighbours to each other, past it. */
    method Bypass(c: ScratchClaim, ghost k: int)
      requires Linked() && 0 <= k < |claims| && claims[k] == c
      modifies this`head, live
      ensures forall x :: x in live ==> x.words == old(x.words)
      ensures forall x :: x in live && x !in claims ==> x.prev == old(x.prev) && x.next == old(x.next)
      ensures head == if k == 0 then After(claims, 0) else old(head)
      ensures forall i {:trigger claims[i].next} :: 0 <= i < |claims| ==> claims[i].next == After(claims, if i == k - 1 then k else i)
      ensures forall i {:trigger claims[i].prev} :: 0 <= i < |claims| ==> claims[i].prev == Before(claims, if i == k + 1 then k else i)
    {
      OnlyAt(claims, k - 1);
      OnlyAt(claims, k + 1);
      hide Distinct;
      if c.prev != null { c.prev.next := c.next; } else { head := c.next; }
      if c.next != null { c.next.prev := c.prev; }
    }

    /** Takes a claim out of the list. */
    method Unlink(c: ScratchClaim)
      requires Linked() && c in live && c.words > 0
      modifies this`head, this`claims, live
      ensures Linked() && live == old(live) && claims == Removed(old(claims), c) && c !in claims && c.words == 0
      ensures forall x :: x in live && x != c ==> x.words == old(x.words)
    {
      hide Distinct, Removed, Before, After;
      ghost var k := InList(c);
      ghost var was := claims;
      OnlyAt(was, k);
      DistinctBefore(was, k);
      RemovedAt(was, k);
      DistinctWithout(was, k);
      Bypass(c, k);
      c.words := 0;
      c.prev, c.next := null, null;
      claims := was[..k] + was[k + 1..];
      NeighboursClosed(was, k);
    }

    /** Once the neighbours are joined, every claim that stays has the links the shorter list needs. */
    lemma NeighboursClosed(was: seq<ScratchClaim>, k: nat)
      requires k < |was| && claims == was[..k] + was[k + 1..]
      requires forall i :: 0 <= i < |was| && i != k ==> was[i] != was[k] && was[i].next == After(was, if i == k - 1 then k else i)
      requires forall i :: 0 <= i < |was| && i != k ==> was[i].prev == Before(was, if i == k + 1 then k else i)
      ensures After(claims, -1) == After(was, if k == 0 then 0 else -1)
      ensures forall i {:trigger claims[i]} :: 0 <= i < |claims| ==>
                && claims[i] in was && claims[i] != was[k]
                && claims[i].next == After(claims, i) && claims[i].prev == Before(claims, i)
    {
      if |was| > 1 { Closed(was, k, 0); }
      forall i | 0 <= i < |claims|
        ensures claims[i] in was && claims[i] != was[k]
        ensures claims[i].next == After(claims, i) && claims[i].prev == Before(claims, i)
      {
        Closed(was, k, i);
      }
    }

    /** The most any claim in the list asks for. */
    method Needed() returns (needed: nat)
      requires Linked()
      ensures forall i :: 0 <= i < |claims| ==> claims[i].words <= needed
      ensures needed > 0 ==> exists i :: 0 <= i < |claims| && claims[i].words == needed
    {
      needed := 0;
      var claim := head;
      ghost var n := 0;
      while claim != null
        invariant 0 <= n <= |claims| && claim == if n == |claims| then null else claims[n]
        invariant forall i :: 0 <= i < n ==> claims[i].words <= needed
        invariant needed > 0 ==> exists i :: 0 <= i < n && claims[i].words == needed
        decreases |claims| - n
      {
        if claim.words > needed { needed := claim.words; }
        assert claims[n].next == if n == |claims| - 1 then null else claims[n + 1];
        claim := claim.next;
        n := n + 1;
      }
    }

    /** Leaves the list; a workspace larger than any remaining claim asks for is given back. */
    method Release(c: ScratchClaim)
      requires Valid() && c in live
      modifies this`head, this`claims, live, workspace, workspace.heap
      ensures Valid() && live == old(live) && c.words == 0 && claims == Removed(old(claims), c)
      ensures forall x :: x in live && x != c ==> x.words == old(x.words)
      ensures workspace.size == old(workspace.size) || workspace.size == 0
      ensures old(c.words) == 0 || (exists i :: 0 <= i < |claims| && claims[i].words >= old(workspace.size)) ==>
                workspace.size == old(workspace.size)
      ensures Accounted() && workspace.heap.peak == old(workspace.heap.peak)
    {
      if c.words == 0 {
        NotRemoved(claims, c);
        return;
      }
      Unlink(c);
      hide Linked, Distinct, Removed;
      var needed := Needed();
      if workspace.size > needed { workspace.Clear(); }
    }

    /** The destructor: with the last claim the workspace goes too. */
    method Destroy(c: ScratchClaim)
      requires Valid() && c in live
      modifies this, live, workspace, workspace.heap
      ensures Valid() && live == old(live) - {c} && claims == Removed(old(claims), c)
      ensures claims == [] ==> workspace.size == 0 && workspace.data.Length == 0
      ensures Accounted() && workspace.heap.peak == old(workspace.heap.peak)
    {
      Release(c);
      live := live - {c};
    }

    /** The move assignment: `c` gives its own claim up and takes the other's place in the list. */
    method Move(c: ScratchClaim, other: ScratchClaim)
      requires Valid() && c in live && other in live
      modifies this`head, this`claims, live, workspace, workspace.heap
      ensures Valid() && live == old(live)
      ensures c == other ==> claims == old(claims) && c.words == old(c.words) && workspace.size == old(workspace.size)
      ensures c != other ==> claims == Renamed(Removed(old(claims), c), other, c)
      ensures c != other ==> c.words == old(other.words) && other.words == 0
      ensures forall x :: x in live && x != c && x != other ==> x.words == old(x.words)
      ensures Accounted() && workspace.heap.peak == old(workspace.heap.peak)
    {
      if c == other { return; }
      Release(c);
      TakeOver(c, other);
    }

    method TakeOver(c: ScratchClaim, other: ScratchClaim)
      requires Valid() && c in live && other in live && c != other && c.words == 0
      modifies this`head, this`claims, live
      ensures Valid() && live == old(live) && claims == Renamed(old(claims), other, c)
      ensures c.words == old(other.words) && other.words == 0
      ensures forall x :: x in live && x != c && x != other ==> x.words == old(x.words)
    {
      hide Distinct, Before, After;
      ghost var was := claims;
      NotRenamed(was, other, c);
      if other.words == 0 { return; }
      ghost var k := InList(other);
      OnlyAt(was, k);
      DistinctRenamed(was, other, c);
      Substitute(c, other, k);
      claims := Renamed(was, other, c);
      NeighboursRenamed(was, k, other, c);
    }

    /** Points the other claim's neighbours to this one and empties the other. */
    method Substitute(c: ScratchClaim, other: ScratchClaim, ghost k: int)
      requires Linked() && c in live && c !in claims && 0 <= k < |claims| && claims[k] == other
      modifies this`head, live
      ensures c.words == old(other.words) && other.words == 0
      ensures c.prev == Before(claims, k) && c.next == After(claims, k) && other.prev == null && other.next == null
      ensures forall x :: x in live && x != c && x != other ==> x.words == old(x.words)
      ensures forall x :: x in live && x !in claims && x != c ==> x.prev == old(x.prev) && x.next == old(x.next)
      ensures head == if k == 0 then c else old(head)
      ensures forall i {:trigger claims[i].next} :: 0 <= i < |claims| && i != k ==>
                claims[i].next == if i == k - 1 then c else old(claims[i].next)
      ensures forall i {:trigger claims[i].prev} :: 0 <= i < |claims| && i != k ==>
                claims[i].prev == if i == k + 1 then c else old(claims[i].prev)
    {
      OnlyAt(claims, k);
      OnlyAt(claims, k - 1);
      OnlyAt(claims, k + 1);
      hide Distinct;
      c.words, c.prev, c.next := other.words, other.prev, other.next;
      if c.prev != null { c.prev.next := c; } else { head := c; }
      if c.next != null { c.next.prev := c; }
      other.words := 0;
      other.prev, other.next := null, null;
    }

    lemma NeighboursRenamed(was: seq<ScratchClaim>, k: nat, from: ScratchClaim, to: ScratchClaim)
      requires k < |was| && was[k] == from && claims == Renamed(was, from, to) && to !in was
      requires forall i :: 0 <= i < |was| && i != k ==>
                 was[i] != from && was[i].next == if i == k - 1 then to else After(was, i)
      requires forall i :: 0 <= i < |was| && i != k ==> was[i].prev == if i == k + 1 then to else Before(was, i)
      requires to.prev == Before(was, k) && to.next == After(was, k)
      ensures After(claims, -1) == if k == 0 then to else After(was, -1)
      ensures forall i {:trigger claims[i]} :: 0 <= i < |claims| ==>
                && (claims[i] == to || claims[i] in was) && claims[i] != from
                && claims[i].next == After(claims, i) && claims[i].prev == Before(claims, i)
    {
    }
  }
}
