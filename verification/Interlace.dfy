/** The row order of interlaced GIF images, Appendix E of GIF89a. */
module Interlace {
  import opened Bits

  const START: seq<nat> := [0, 4, 2, 1]
  const STEP: seq<nat> := [8, 8, 4, 2]

  /** The rows of one pass, as the standard lists them: from `start`, every `step`-th. */
  function Pass(start: nat, step: nat, h: nat): (rows: seq<nat>)
    requires step > 0
    decreases h - start
  {
    if start >= h then [] else [start] + Pass(start + step, step, h)
  }

  function RowsOf(p: nat, h: nat): seq<nat>
    requires p < 4
  {
    Pass(START[p], STEP[p], h)
  }

  /** All rows in the order they are stored. */
  function StoredOrder(h: nat): seq<nat> {
    RowsOf(0, h) + RowsOf(1, h) + RowsOf(2, h) + RowsOf(3, h)
  }

  function RowsInPass(p: nat, h: nat): nat
    requires p < 4
  {
    if h > START[p] then (h - START[p] + STEP[p] - 1) / STEP[p] else 0
  }

  /** Rows stored before pass `p`. */
  function Before(p: nat, h: nat): nat
    requires p <= 4
  {
    (if p > 0 then RowsInPass(0, h) else 0) + (if p > 1 then RowsInPass(1, h) else 0) +
    (if p > 2 then RowsInPass(2, h) else 0) + (if p > 3 then RowsInPass(3, h) else 0)
  }

  lemma {:induction false} PassRows(start: nat, step: nat, h: nat)
    requires step in {2, 4, 8}
    ensures |Pass(start, step, h)| == if h > start then (h - start + step - 1) / step else 0
    ensures forall k :: 0 <= k < |Pass(start, step, h)| ==> Pass(start, step, h)[k] == start + k * step
    decreases h - start
  {
    if start < h {
      PassRows(start + step, step, h);
      var rest := Pass(start + step, step, h);
      forall k | 0 <= k < |Pass(start, step, h)| ensures Pass(start, step, h)[k] == start + k * step {
        if k > 0 {
          assert rest[k - 1] == start + step + (k - 1) * step;
          assert (k - 1) * step == k * step - step;
        }
      }
    }
  }

  lemma RowsOfPass(p: nat, h: nat)
    requires p < 4
    ensures |RowsOf(p, h)| == RowsInPass(p, h)
    ensures forall k :: 0 <= k < |RowsOf(p, h)| ==> RowsOf(p, h)[k] == START[p] + k * STEP[p]
  {
    hide Pass;
    PassRows(START[p], STEP[p], h);
  }

  /** The k-th row of a pass, found in the stored order. */
  lemma StoredOrderAt(h: nat, p: nat, k: nat)
    requires p < 4 && k < RowsInPass(p, h)
    ensures Before(p, h) + k < |StoredOrder(h)|
    ensures StoredOrder(h)[Before(p, h) + k] == START[p] + k * STEP[p]
  {
    hide RowsOf, RowsInPass, START, STEP;
    RowsOfPass(0, h);
    RowsOfPass(1, h);
    RowsOfPass(2, h);
    RowsOfPass(3, h);
    Joined(RowsOf(0, h), RowsOf(1, h), RowsOf(2, h), RowsOf(3, h), k);
  }

  lemma Joined<T>(a: seq<T>, b: seq<T>, c: seq<T>, d: seq<T>, k: nat)
    ensures k < |a| ==> (a + b + c + d)[k] == a[k]
    ensures k < |b| ==> (a + b + c + d)[|a| + k] == b[k]
    ensures k < |c| ==> (a + b + c + d)[|a| + |b| + k] == c[k]
    ensures k < |d| ==> (a + b + c + d)[|a| + |b| + |c| + k] == d[k]
  {
  }

  lemma AllRows(h: nat)
    ensures |StoredOrder(h)| == Before(4, h) == h
  {
    AllStored(h);
    RowCount(h, h / 8, h % 8);
  }

  lemma AllStored(h: nat)
    ensures |StoredOrder(h)| == Before(4, h)
  {
    hide RowsOf, RowsInPass;
    RowsOfPass(0, h);
    RowsOfPass(1, h);
    RowsOfPass(2, h);
    RowsOfPass(3, h);
    assert Before(4, h) == RowsInPass(0, h) + RowsInPass(1, h) + RowsInPass(2, h) + RowsInPass(3, h);
  }

  /** How many rows each pass holds, by the remainder of the height. */
  lemma RowCount(h: nat, q: nat, r: nat)
    requires h == 8 * q + r && r < 8
    ensures RowsInPass(0, h) == q + (if r > 0 then 1 else 0)
    ensures RowsInPass(1, h) == q + (if r > 4 then 1 else 0)
    ensures RowsInPass(2, h) == 2 * q + (if r > 6 then 2 else if r > 2 then 1 else 0)
    ensures RowsInPass(3, h) == 4 * q + r / 2
    ensures Before(4, h) == h
  {
  }

  /** Counts off the passes until the r-th stored row falls into one. */
  method InterlacedRow(r: int, h: nat) returns (row: int)
    requires 0 <= r < h
    ensures r < |StoredOrder(h)| && row == StoredOrder(h)[r]
  {
    AllRows(h);
    var left := r;
    row := 0;
    for p := 0 to 4
      invariant 0 <= left == r - Before(p, h)
    {
      var rows := RowsInPass(p, h);
      if left < rows {
        row := START[p] + left * STEP[p];
        StoredOrderAt(h, p, left);
        break;
      }
      left := left - rows;
    }
  }

  /** Where a row is stored: the inverse of the stored order. */
  function StoredAt(y: nat, h: nat): nat {
    if y % 8 == 0 then Before(0, h) + y / 8
    else if y % 8 == 4 then Before(1, h) + y / 8
    else if y % 4 == 2 then Before(2, h) + y / 4
    else Before(3, h) + y / 2
  }

  /** Every row is stored exactly once, so each row of the frame is drawn from exactly one decoded row. */
  lemma StoredOrderIsPermutation(h: nat)
    ensures |StoredOrder(h)| == h
    ensures forall r :: 0 <= r < h ==> StoredOrder(h)[r] < h && StoredAt(StoredOrder(h)[r], h) == r
    ensures forall y :: 0 <= y < h ==> StoredAt(y, h) < h && StoredOrder(h)[StoredAt(y, h)] == y
  {
    AllRows(h);
    forall r | 0 <= r < h ensures StoredOrder(h)[r] < h && StoredAt(StoredOrder(h)[r], h) == r {
      StoredRow(r, h);
    }
    forall y | 0 <= y < h ensures StoredAt(y, h) < h && StoredOrder(h)[StoredAt(y, h)] == y {
      RowStored(y, h);
    }
  }

  lemma PassMember(p: nat, k: nat, h: nat)
    requires p < 4 && k < RowsInPass(p, h)
    ensures var y := START[p] + k * STEP[p]; y < h && StoredAt(y, h) == Before(p, h) + k
  {
    if p == 0 { assert 8 * k % 8 == 0; }
    if p == 1 { assert (4 + 8 * k) % 8 == 4; }
    if p == 2 { assert (2 + 4 * k) % 4 == 2; }
    if p == 3 { assert (1 + 2 * k) % 4 != 2; }
  }

  function PassOf(y: nat): (p: nat)
    ensures p < 4
  {
    if y % 8 == 0 then 0 else if y % 8 == 4 then 1 else if y % 4 == 2 then 2 else 3
  }

  /** A row's place within its pass. */
  function PlaceInPass(y: nat): nat {
    if y % 8 == 0 || y % 8 == 4 then y / 8 else if y % 4 == 2 then y / 4 else y / 2
  }

  lemma PlaceOf(y: nat)
    ensures y == START[PassOf(y)] + PlaceInPass(y) * STEP[PassOf(y)]
  {
    Octet(y, y / 8, y % 8);
  }

  lemma Octet(y: nat, q: nat, r: nat)
    requires y == 8 * q + r && r < 8
    ensures y % 8 == r && y / 8 == q
    ensures y % 4 == r % 4 && y / 4 == 2 * q + r / 4
    ensures y / 2 == 4 * q + r / 2
  {
    DivMod(y, 8, q, r);
    DivMod(y, 4, 2 * q + r / 4, r % 4);
    DivMod(y, 2, 4 * q + r / 2, r % 2);
  }

  lemma MemberOfPass(y: nat, h: nat)
    requires y < h
    ensures PlaceInPass(y) < RowsInPass(PassOf(y), h)
    ensures y == START[PassOf(y)] + PlaceInPass(y) * STEP[PassOf(y)]
  {
    hide PassOf, PlaceInPass;
    PlaceOf(y);
    CeilingBound(h - START[PassOf(y)], STEP[PassOf(y)], PlaceInPass(y));
  }

  lemma CeilingBound(n: int, step: int, k: int)
    requires step in {2, 4, 8} && 0 <= k && k * step < n
    ensures k < (n + step - 1) / step
  {
  }

  lemma StoredRow(r: nat, h: nat)
    requires r < h
    ensures |StoredOrder(h)| == h && StoredOrder(h)[r] < h && StoredAt(StoredOrder(h)[r], h) == r
  {
    hide StoredOrder, StoredAt;
    AllRows(h);
    var p := if r < Before(1, h) then 0 else if r < Before(2, h) then 1 else if r < Before(3, h) then 2 else 3;
    assert Before(p, h) <= r < Before(p, h) + RowsInPass(p, h);
    hide Before, RowsInPass;
    StoredOrderAt(h, p, r - Before(p, h));
    PassMember(p, r - Before(p, h), h);
  }

  lemma RowStored(y: nat, h: nat)
    requires y < h
    ensures |StoredOrder(h)| == h && StoredAt(y, h) < h && StoredOrder(h)[StoredAt(y, h)] == y
  {
    hide *;
    AllRows(h);
    MemberOfPass(y, h);
    var p := PassOf(y);
    PassMember(p, PlaceInPass(y), h);
    StoredOrderAt(h, p, PlaceInPass(y));
  }
}
