/**
 * The row partition computed by every worker in `main` (mandel.c:92-102):
 * `rows`, `startrow`, `count` and `displ`, one entry per worker.
 */
module Partition {
  import opened FlatIndex

  datatype Option<T> = None | Some(value: T)

  /** Rows given to worker i of p: the h % p remainder rows go one each to the lowest ranks. */
  function Rows(h: nat, p: nat, i: nat): nat
    requires p >= 1
  {
    if i < h % p then h / p + 1 else h / p
  }

  /** First row of worker i: the rows of all workers before it, accumulated. */
  function StartRow(h: nat, p: nat, i: nat): nat
    requires p >= 1
  {
    if i == 0 then 0 else StartRow(h, p, i - 1) + Rows(h, p, i - 1)
  }

  /** Number of ints worker i contributes to the gather: `count[i]`. */
  function Count(h: nat, w: nat, p: nat, i: nat): nat
    requires p >= 1
  {
    Rows(h, p, i) * w
  }

  /** Offset in `vres` at which worker i's block is placed: `displ[i]`. */
  function Displ(h: nat, w: nat, p: nat, i: nat): nat
    requires p >= 1
  {
    StartRow(h, p, i) * w
  }

  function Min(a: int, b: int): int { if a <= b then a else b }

  /** The accumulated start row has a closed form: i base rows plus one per remainder row before i. */
  lemma {:induction false} StartRowClosedForm(h: nat, p: nat, i: nat)
    requires p >= 1
    ensures StartRow(h, p, i) == i * (h / p) + Min(i, h % p)
  {
    if i > 0 {
      StartRowClosedForm(h, p, i - 1);
      assert i * (h / p) == (i - 1) * (h / p) + h / p;
    }
  }

  /** The closed form `startrow[i] = i*rows[i]` of the low-rank branch agrees with the running sum. */
  lemma LowRankStart(h: nat, p: nat, i: nat)
    requires p >= 1 && i < h % p
    ensures StartRow(h, p, i) == i * Rows(h, p, i)
  {
    StartRowClosedForm(h, p, i);
    var b := h / p;
    MulSucc(i, b);
  }

  lemma MulSucc(i: int, b: int)
    ensures i * (b + 1) == i * b + i
  {
  }

  /** The workers' rows add up to the whole image: the last block ends at row h. */
  lemma PartitionCovers(h: nat, p: nat)
    requires p >= 1
    ensures StartRow(h, p, p) == h
  {
    StartRowClosedForm(h, p, p);
    assert h == p * (h / p) + h % p;
  }

  /** Blocks come in rank order: a lower rank's block ends no later than a higher rank's begins. */
  lemma {:induction false} StartRowOrdered(h: nat, p: nat, a: nat, b: nat)
    requires p >= 1 && a < b
    ensures StartRow(h, p, a) + Rows(h, p, a) <= StartRow(h, p, b)
    decreases b - a
  {
    if a + 1 < b {
      StartRowOrdered(h, p, a + 1, b);
    }
  }

  /** With no more workers than rows every worker gets a row, so start rows strictly increase. */
  lemma StartRowIncreasing(h: nat, p: nat, a: nat, b: nat)
    requires 1 <= p <= h && a < b
    ensures Rows(h, p, a) >= 1
    ensures StartRow(h, p, a) < StartRow(h, p, b)
  {
    MulAtLeast(h / p, p);
    StartRowOrdered(h, p, a, b);
  }

  /** No block reaches past the last row. */
  lemma BlockInImage(h: nat, p: nat, i: nat)
    requires p >= 1 && i < p
    ensures StartRow(h, p, i) + Rows(h, p, i) <= h
  {
    PartitionCovers(h, p);
    StartRowOrdered(h, p, i, p);
  }

  /**
   * Balance: worker i gets h/p + 1 rows exactly when i < h % p, any two workers differ
   * by at most one row, and no worker gets more than h/p + 1 rows (the row dimension
   * of the local buffer `res_parcial`).
   */
  lemma RowsBalanced(h: nat, p: nat, i: nat, k: nat)
    requires p >= 1 && i < p && k < p
    ensures Rows(h, p, i) == h / p + 1 <==> i < h % p
    ensures Rows(h, p, i) == h / p <==> i >= h % p
    ensures Rows(h, p, i) <= Rows(h, p, k) + 1
    ensures Rows(h, p, i) <= h / p + 1
  {
  }

  /** With more workers than rows, the first h workers get one row each and the rest none. */
  lemma MoreWorkersThanRows(h: nat, p: nat, i: nat)
    requires p > h && i < p
    ensures Rows(h, p, i) == (if i < h then 1 else 0)
    ensures StartRow(h, p, i) == Min(i, h)
  {
    assert h / p == 0 && h % p == h by {
      DivModUnique(h, p, 0, h);
    }
    StartRowClosedForm(h, p, i);
  }

  /** A single worker owns every row, starting at row 0. */
  lemma SingleWorker(h: nat)
    ensures Rows(h, 1, 0) == h && StartRow(h, 1, 0) == 0 && StartRow(h, 1, 1) == h
  {
    PartitionCovers(h, 1);
  }

  /** The rank whose block holds `row`, searching upward from rank q. */
  ghost function OwnerFrom(h: nat, p: nat, row: nat, q: nat): (o: nat)
    requires p >= 1 && row < h && q < p && StartRow(h, p, q) <= row
    ensures q <= o < p
    ensures StartRow(h, p, o) <= row < StartRow(h, p, o) + Rows(h, p, o)
    decreases p - q
  {
    if row < StartRow(h, p, q) + Rows(h, p, q) then q
    else
      assert q + 1 < p by {
        if q + 1 == p { PartitionCovers(h, p); }
      }
      OwnerFrom(h, p, row, q + 1)
  }

  /** Rows 0..h-1 are covered: every row belongs to the block of some worker. */
  ghost function RowOwner(h: nat, p: nat, row: nat): (o: nat)
    requires p >= 1 && row < h
    ensures o < p && StartRow(h, p, o) <= row < StartRow(h, p, o) + Rows(h, p, o)
  {
    OwnerFrom(h, p, row, 0)
  }

  /** The blocks do not overlap: the block that holds a row is unique. */
  lemma RowOwnerUnique(h: nat, p: nat, row: nat, q: nat)
    requires p >= 1 && row < h && q < p
    requires StartRow(h, p, q) <= row < StartRow(h, p, q) + Rows(h, p, q)
    ensures q == RowOwner(h, p, row)
  {
    var o := RowOwner(h, p, row);
    if q < o {
      StartRowOrdered(h, p, q, o);
    } else if o < q {
      StartRowOrdered(h, p, o, q);
    }
  }

  /**
   * Gather layout: the element blocks [displ[i], displ[i] + count[i]) follow each other
   * without gaps, and the last one ends at h * w, the size of `vres`.
   */
  lemma GatherLayout(h: nat, w: nat, p: nat, i: nat)
    requires p >= 1 && i < p
    ensures StartRow(h, p, i) * w + Rows(h, p, i) * w == StartRow(h, p, i + 1) * w
    ensures StartRow(h, p, i + 1) * w <= h * w
    ensures StartRow(h, p, p) * w == h * w
  {
    BlockInImage(h, p, i);
    var s, n := StartRow(h, p, i), Rows(h, p, i);
    assert StartRow(h, p, i + 1) == s + n;
    Distrib(s, n, w);
    ScaleMono(s + n, h, w);
    PartitionCovers(h, p);
  }

  /** Element blocks of distinct workers are disjoint. */
  lemma BlocksDisjoint(h: nat, w: nat, p: nat, a: nat, b: nat)
    requires p >= 1 && a < p && b < p && a != b
    ensures StartRow(h, p, a) * w + Rows(h, p, a) * w <= StartRow(h, p, b) * w
         || StartRow(h, p, b) * w + Rows(h, p, b) * w <= StartRow(h, p, a) * w
  {
    if a < b {
      StartRowOrdered(h, p, a, b);
      ScaledBefore(StartRow(h, p, a), Rows(h, p, a), StartRow(h, p, b), w);
    } else {
      StartRowOrdered(h, p, b, a);
      ScaledBefore(StartRow(h, p, b), Rows(h, p, b), StartRow(h, p, a), w);
    }
  }

  /**
   * The start row as the source's loop body computes it, given the entries already filled
   * for workers 0..i-1. None stands for the read of `startrow[i-1]` and `rows[i-1]` at
   * i == 0, which lies outside both arrays.
   */
  function StartRowAsWritten(h: nat, p: nat, i: nat, rowsBefore: seq<int>, startBefore: seq<int>): (r: Option<int>)
    requires p >= 1 && |rowsBefore| == |startBefore| == i
    requires forall k :: 0 <= k < i ==> rowsBefore[k] == Rows(h, p, k) && startBefore[k] == StartRow(h, p, k)
    ensures r.None? <==> i == 0 && h % p == 0
    ensures r.Some? ==> r.value == StartRow(h, p, i)
  {
    if i < h % p then
      LowRankStart(h, p, i);
      Some(i * (h / p + 1))
    else if i == 0 then None
    else Some(startBefore[i - 1] + rowsBefore[i - 1])
  }

  /** With the default 1024 rows and 4 workers, worker 0 takes the branch that reads index -1. */
  lemma DefaultRowsReadBeforeFirst()
    ensures StartRowAsWritten(1024, 4, 0, [], []).None?
  {
  }

  /** Entry i of the partition tables is filled in. */
  ghost predicate EntryFilled(h: nat, w: nat, p: nat, rows: array<int>, startrow: array<int>, count: array<int>, displ: array<int>, i: nat)
    requires p >= 1 && i < rows.Length == startrow.Length == count.Length == displ.Length
    reads rows, startrow, count, displ
  {
    rows[i] == Rows(h, p, i) && startrow[i] == StartRow(h, p, i)
    && count[i] == Count(h, w, p, i) && displ[i] == Displ(h, w, p, i)
  }

  /**
   * The partition loop of `main`, with worker 0's start row set to 0 explicitly.
   */
  method FillPartition(h: nat, w: nat, numprocs: nat) returns (rows: array<int>, startrow: array<int>, count: array<int>, displ: array<int>)
    requires numprocs >= 1
    ensures fresh(rows) && fresh(startrow) && fresh(count) && fresh(displ)
    ensures rows.Length == startrow.Length == count.Length == displ.Length == numprocs
    ensures forall i :: 0 <= i < numprocs ==>
      rows[i] == Rows(h, numprocs, i) && startrow[i] == StartRow(h, numprocs, i)
      && count[i] == Count(h, w, numprocs, i) && displ[i] == Displ(h, w, numprocs, i)
  {
    rows := new int[numprocs];
    startrow := new int[numprocs];
    count := new int[numprocs];
    displ := new int[numprocs];
    for i := 0 to numprocs
      invariant forall k :: 0 <= k < i ==>
        rows[k] == Rows(h, numprocs, k) && startrow[k] == StartRow(h, numprocs, k)
        && count[k] == Count(h, w, numprocs, k) && displ[k] == Displ(h, w, numprocs, k)
    {
      FillEntry(h, w, numprocs, i, rows, startrow, count, displ);
    }
  }

  /** One iteration of the partition loop: fills entry i from entry i - 1. */
  method FillEntry(h: nat, w: nat, numprocs: nat, i: nat, rows: array<int>, startrow: array<int>, count: array<int>, displ: array<int>)
    requires numprocs >= 1 && i < numprocs
    requires rows.Length == startrow.Length == count.Length == displ.Length == numprocs
    requires rows != startrow && rows != count && rows != displ
    requires startrow != count && startrow != displ && count != displ
    requires i > 0 ==> EntryFilled(h, w, numprocs, rows, startrow, count, displ, i - 1)
    modifies rows, startrow, count, displ
    ensures EntryFilled(h, w, numprocs, rows, startrow, count, displ, i)
    ensures forall k :: 0 <= k < numprocs && k != i ==>
      rows[k] == old(rows[k]) && startrow[k] == old(startrow[k]) && count[k] == old(count[k]) && displ[k] == old(displ[k])
  {
    if i < h % numprocs {
      rows[i] := h / numprocs + 1;
      LowRankStart(h, numprocs, i);
      startrow[i] := i * rows[i];
    } else {
      rows[i] := h / numprocs;
      startrow[i] := if i == 0 then 0 else startrow[i - 1] + rows[i - 1];
    }
    count[i] := rows[i] * w;
    displ[i] := startrow[i] * w;
  }
}
