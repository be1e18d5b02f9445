/**
 * The placement semantics of `MPI_Gatherv` at the coordinator (mandel.c:143): the block
 * sent by rank q, `count[q]` ints, lands in the receive buffer starting at `displ[q]`.
 * The collective is modelled as a sequence of copies, one per rank, in an arbitrary order.
 */
module Gather {

  /** Receive-buffer index n lies in the block of rank q. */
  ghost predicate InBlock(count: array<int>, displ: array<int>, q: int, n: int)
    requires 0 <= q < count.Length == displ.Length
    reads count, displ
  {
    displ[q] <= n < displ[q] + count[q]
  }

  /** Some rank of `ranks` has a block holding index n. */
  ghost predicate Covered(count: array<int>, displ: array<int>, ranks: set<int>, n: int)
    requires count.Length == displ.Length
    requires forall q :: q in ranks ==> 0 <= q < count.Length
    reads count, displ
  {
    exists q :: q in ranks && InBlock(count, displ, q, n)
  }

  /** Index n lies in the block of some rank. */
  ghost predicate InSomeBlock(count: array<int>, displ: array<int>, n: int)
    requires count.Length == displ.Length
    reads count, displ
  {
    exists q :: 0 <= q < count.Length && InBlock(count, displ, q, n)
  }

  /** `order` lists each of the ranks 0..p-1 exactly once. */
  ghost predicate IsPermutation(order: seq<int>, p: nat)
  {
    |order| == p
    && (forall k :: 0 <= k < p ==> 0 <= order[k] < p)
    && (forall a, b :: 0 <= a < b < p ==> order[a] != order[b])
    && (forall q :: 0 <= q < p ==> q in order)
  }

  /** Copies one payload into `vres` starting at `offset`; nothing else changes. */
  method Deposit(vres: array<int>, offset: int, payload: seq<int>)
    requires 0 <= offset && offset + |payload| <= vres.Length
    modifies vres
    ensures forall n :: offset <= n < offset + |payload| ==> vres[n] == payload[n - offset]
    ensures forall n :: 0 <= n < vres.Length && !(offset <= n < offset + |payload|) ==> vres[n] == old(vres[n])
  {
    for e := 0 to |payload|
      invariant forall n :: offset <= n < offset + e ==> vres[n] == payload[n - offset]
      invariant forall n :: 0 <= n < vres.Length && !(offset <= n < offset + e) ==> vres[n] == old(vres[n])
    {
      vres[offset + e] := payload[e];
    }
  }

  /**
   * The gather: every rank's payload is copied to its displacement, ranks taken in the
   * order `order`. When the blocks are disjoint, every block holds its own rank's payload
   * afterwards whatever the order, and cells outside all blocks are untouched.
   */
  method Gatherv(vres: array<int>, payloads: seq<seq<int>>, count: array<int>, displ: array<int>, order: seq<int>)
    requires count.Length == displ.Length == |payloads|
    requires vres != count && vres != displ
    requires forall q :: 0 <= q < |payloads| ==> |payloads[q]| == count[q] && 0 <= displ[q] && displ[q] + count[q] <= vres.Length
    requires forall a, b :: 0 <= a < |payloads| && 0 <= b < |payloads| && a != b ==>
      displ[a] + count[a] <= displ[b] || displ[b] + count[b] <= displ[a]
    requires IsPermutation(order, |payloads|)
    modifies vres
    ensures forall q, n :: 0 <= q < |payloads| && InBlock(count, displ, q, n) ==> vres[n] == payloads[q][n - displ[q]]
    ensures forall n :: 0 <= n < vres.Length && !InSomeBlock(count, displ, n) ==> vres[n] == old(vres[n])
  {
    ghost var placed: set<int> := {};
    for t := 0 to |order|
      invariant placed == set k | 0 <= k < t :: order[k]
      invariant forall q :: q in placed ==> 0 <= q < |payloads|
      invariant forall q, n :: q in placed && InBlock(count, displ, q, n) ==> vres[n] == payloads[q][n - displ[q]]
      invariant forall n :: 0 <= n < vres.Length && !Covered(count, displ, placed, n) ==> vres[n] == old(vres[n])
    {
      var q := order[t];
      Deposit(vres, displ[q], payloads[q]);
      placed := placed + {q};
    }
    forall q | 0 <= q < |payloads|
      ensures q in placed
    {
      assert q in order;
      var k :| 0 <= k < |order| && order[k] == q;
    }
    forall n | 0 <= n < vres.Length && !InSomeBlock(count, displ, n)
      ensures !Covered(count, displ, placed, n)
    {
    }
  }
}
