/**
 A font's tables: a dense span found by subtraction, and behind it ranges of code points whose index
 arrays point into the same glyph table, 0 standing for no glyph.
 */
module FontTables {
  import opened Bits
  import opened FontPack
  import opened Options

  const DENSE_FIRST: nat := 0x20
  const DENSE_LAST: nat := 0x7E
  const DENSE: nat := DENSE_LAST - DENSE_FIRST + 1
  const SPARSE_GAP := 8

  /** A no-break space looks like a space. */
  const ALIASES: map<nat, nat> := map[0x00A0 := 0x0020]

  predicate InDense(cp: nat) { DENSE_FIRST <= cp <= DENSE_LAST }

  type Glyphs = map<nat, Glyph>

  /** The glyph a code point is to be drawn with. */
  function Wanted(glyphs: Glyphs, cp: nat): Option<Glyph> {
    if cp in glyphs then Some(glyphs[cp])
    else if cp in ALIASES && ALIASES[cp] in glyphs then Some(glyphs[ALIASES[cp]])
    else None
  }

  predicate Carried(glyphs: Glyphs, cp: nat) { Wanted(glyphs, cp).Some? }

  // ----- runs -----

  datatype Run = Run(first: nat, last: nat)

  predicate Holds(r: Run, cp: nat) { r.first <= cp <= r.last }

  ghost predicate Covered(runs: seq<Run>, cp: nat) { exists i :: 0 <= i < |runs| && Holds(runs[i], cp) }

  /** Runs in order, more than the gap apart. */
  ghost predicate Apart(runs: seq<Run>) {
    && (forall i :: 0 <= i < |runs| ==> runs[i].first <= runs[i].last)
    && (forall i, j :: 0 <= i < j < |runs| ==> runs[i].last + SPARSE_GAP < runs[j].first)
  }

  /** A run begins and ends with a code point the font carries, and skips no more than the gap. */
  ghost predicate Tight(glyphs: Glyphs, r: Run) {
    && Carried(glyphs, r.first) && Carried(glyphs, r.last)
    && forall cp :: r.first < cp <= r.last ==> Near(glyphs, r, cp)
  }

  ghost predicate Near(glyphs: Glyphs, r: Run, cp: nat) {
    exists c :: r.first <= c < cp <= c + SPARSE_GAP && Carried(glyphs, c)
  }

  /** Runs of what lies between two code points. */
  ghost predicate Within(glyphs: Glyphs, lo: nat, end: nat, runs: seq<Run>) {
    forall i :: 0 <= i < |runs| ==> lo <= runs[i].first && runs[i].last < end && Tight(glyphs, runs[i])
  }

  ghost predicate Complete(glyphs: Glyphs, lo: nat, end: nat, runs: seq<Run>) {
    forall cp :: lo <= cp < end && Carried(glyphs, cp) ==> Covered(runs, cp)
  }

  ghost predicate RunsOf(glyphs: Glyphs, lo: nat, end: nat, runs: seq<Run>) {
    Apart(runs) && Within(glyphs, lo, end, runs) && Complete(glyphs, lo, end, runs)
  }

  /** Scans a block upwards, lengthening the last run or opening a new one. */
  method Narrow(glyphs: Glyphs, lo: nat, hi: nat) returns (runs: seq<Run>)
    requires lo <= hi + 1
    ensures RunsOf(glyphs, lo, hi + 1, runs)
  {
    runs := [];
    hide *;
    NoRuns(glyphs, lo);
    for cp := lo to hi + 1
      invariant RunsOf(glyphs, lo, cp, runs)
    {
      var n := |runs|;
      if !Carried(glyphs, cp) {
        Skipped(glyphs, lo, cp, runs);
      } else if n > 0 && cp - runs[n - 1].last <= SPARSE_GAP {
        Widened(glyphs, lo, cp, runs);
        runs := runs[n - 1 := Run(runs[n - 1].first, cp)];
      } else {
        Opened(glyphs, lo, cp, runs);
        runs := runs + [Run(cp, cp)];
      }
    }
  }

  lemma NoRuns(glyphs: Glyphs, lo: nat)
    ensures RunsOf(glyphs, lo, lo, [])
  {
  }

  lemma Skipped(glyphs: Glyphs, lo: nat, cp: nat, runs: seq<Run>)
    requires RunsOf(glyphs, lo, cp, runs) && !Carried(glyphs, cp)
    ensures RunsOf(glyphs, lo, cp + 1, runs)
  {
    hide Carried, Tight, Covered, Apart;
  }

  /** What was covered stays covered when runs only grow. */
  lemma CoveredKept(runs: seq<Run>, runs': seq<Run>, c: nat)
    requires Covered(runs, c) && |runs| <= |runs'|
    requires forall i :: 0 <= i < |runs| ==> runs'[i].first == runs[i].first && runs[i].last <= runs'[i].last
    ensures Covered(runs', c)
  {
    var i :| 0 <= i < |runs| && Holds(runs[i], c);
    assert Holds(runs'[i], c);
  }

  lemma Reaches(runs: seq<Run>, c: nat)
    requires runs != [] && Holds(runs[|runs| - 1], c)
    ensures Covered(runs, c)
  {
  }

  /** The last run grows across a gap that is small enough. */
  lemma Widened(glyphs: Glyphs, lo: nat, cp: nat, runs: seq<Run>)
    requires RunsOf(glyphs, lo, cp, runs) && lo <= cp && runs != [] && Carried(glyphs, cp)
    requires cp - runs[|runs| - 1].last <= SPARSE_GAP
    ensures RunsOf(glyphs, lo, cp + 1, runs[|runs| - 1 := Run(runs[|runs| - 1].first, cp)])
  {
    LastEnds(glyphs, lo, cp, runs);
    ApartWidened(runs, cp);
    WithinWidened(glyphs, lo, cp, runs);
    CompleteWidened(glyphs, lo, cp, runs);
    hide Apart, Within, Complete;
  }

  lemma LastEnds(glyphs: Glyphs, lo: nat, cp: nat, runs: seq<Run>)
    requires Within(glyphs, lo, cp, runs) && runs != []
    ensures runs[|runs| - 1].last < cp
  {
  }

  lemma CompleteWidened(glyphs: Glyphs, lo: nat, cp: nat, runs: seq<Run>)
    requires Complete(glyphs, lo, cp, runs) && runs != [] && runs[|runs| - 1].first <= cp
    requires runs[|runs| - 1].last <= cp
    ensures Complete(glyphs, lo, cp + 1, runs[|runs| - 1 := Run(runs[|runs| - 1].first, cp)])
  {
    var n := |runs| - 1;
    var runs' := runs[n := Run(runs[n].first, cp)];
    Reaches(runs', cp);
    hide Carried, Covered;
    forall c | lo <= c < cp + 1 && Carried(glyphs, c) ensures Covered(runs', c) {
      if c < cp { CoveredKept(runs, runs', c); }
    }
  }

  lemma WithinWidened(glyphs: Glyphs, lo: nat, cp: nat, runs: seq<Run>)
    requires Within(glyphs, lo, cp, runs) && Apart(runs) && runs != [] && Carried(glyphs, cp)
    requires cp - runs[|runs| - 1].last <= SPARSE_GAP
    ensures Within(glyphs, lo, cp + 1, runs[|runs| - 1 := Run(runs[|runs| - 1].first, cp)])
  {
    TightWidened(glyphs, runs[|runs| - 1], cp);
    hide Carried, Tight;
  }

  lemma TightWidened(glyphs: Glyphs, r: Run, cp: nat)
    requires Tight(glyphs, r) && r.first <= r.last < cp <= r.last + SPARSE_GAP && Carried(glyphs, cp)
    ensures Tight(glyphs, Run(r.first, cp))
  {
    hide Carried;
    forall c | r.first < c <= cp ensures Near(glyphs, Run(r.first, cp), c) {
      if c <= r.last {
        assert Near(glyphs, r, c);
      } else {
        assert r.first <= r.last < c <= r.last + SPARSE_GAP && Carried(glyphs, r.last);
      }
    }
  }

  /** A new run begins behind a larger gap. */
  lemma Opened(glyphs: Glyphs, lo: nat, cp: nat, runs: seq<Run>)
    requires RunsOf(glyphs, lo, cp, runs) && lo <= cp && Carried(glyphs, cp)
    requires runs == [] || cp - runs[|runs| - 1].last > SPARSE_GAP
    ensures RunsOf(glyphs, lo, cp + 1, runs + [Run(cp, cp)])
  {
    var runs' := runs + [Run(cp, cp)];
    assert Tight(glyphs, Run(cp, cp));
    Reaches(runs', cp);
    ApartOn(runs, cp);
    hide Carried, Covered, Tight, Apart;
    forall c | lo <= c < cp + 1 && Carried(glyphs, c) ensures Covered(runs', c) {
      if c < cp { CoveredKept(runs, runs', c); }
    }
  }

  lemma ApartWidened(runs: seq<Run>, cp: nat)
    requires Apart(runs) && runs != [] && runs[|runs| - 1].last <= cp
    ensures Apart(runs[|runs| - 1 := Run(runs[|runs| - 1].first, cp)])
    ensures runs[|runs| - 1].first <= cp
  {
  }

  lemma ApartOn(runs: seq<Run>, cp: nat)
    requires Apart(runs) && (runs == [] || cp - runs[|runs| - 1].last > SPARSE_GAP)
    ensures Apart(runs + [Run(cp, cp)])
  {
    if runs != [] {
      assert forall i :: 0 <= i < |runs| - 1 ==> runs[i].last < runs[|runs| - 1].first;
    }
  }

  // ----- where runs are split -----

  /** Two code points the font carries, with none it carries between them. */
  ghost predicate Neighbours(glyphs: Glyphs, c: nat, d: nat) {
    c < d && Carried(glyphs, c) && Carried(glyphs, d) && forall k :: c < k < d ==> !Carried(glyphs, k)
  }

  ghost predicate Together(runs: seq<Run>, c: nat, d: nat) {
    exists i :: 0 <= i < |runs| && Holds(runs[i], c) && Holds(runs[i], d)
  }

  /** Neighbours share a run exactly if their distance is at most the gap, that is if fewer than eight are missing. */
  lemma SplitBetween(glyphs: Glyphs, lo: nat, end: nat, runs: seq<Run>, c: nat, d: nat)
    requires RunsOf(glyphs, lo, end, runs) && lo <= c && d < end && Neighbours(glyphs, c, d)
    ensures Together(runs, c, d) <==> d - c <= SPARSE_GAP
  {
    hide Carried;
    if Together(runs, c, d) {
      var i :| 0 <= i < |runs| && Holds(runs[i], c) && Holds(runs[i], d);
      assert Near(glyphs, runs[i], d);
    } else {
      assert Covered(runs, c) && Covered(runs, d);
      var i :| 0 <= i < |runs| && Holds(runs[i], c);
      var j :| 0 <= j < |runs| && Holds(runs[j], d);
      RunEnds(glyphs, runs[i], runs[j], c, d);
    }
  }

  /** Between neighbours in different runs the first run ends and the second begins. */
  lemma RunEnds(glyphs: Glyphs, r: Run, r': Run, c: nat, d: nat)
    requires Neighbours(glyphs, c, d) && Tight(glyphs, r) && Tight(glyphs, r')
    requires Holds(r, c) && Holds(r', d) && !Holds(r, d) && !Holds(r', c)
    ensures r.last == c && r'.first == d
  {
    hide Carried;
  }

  /** A font with these two code points of the block and no other, and the dense span every font has. */
  ghost predicate OnlyTwo(glyphs: Glyphs) {
    && (forall cp: nat :: InDense(cp) ==> cp in glyphs)
    && (forall cp: nat :: 0x2460 <= cp <= 0x24FF ==> (cp in glyphs <==> cp == 0x2460 || cp == 0x2469))
  }

  /** With exactly eight code points missing between two, there are two runs. */
  lemma EightMissing(glyphs: Glyphs, runs: seq<Run>)
    requires OnlyTwo(glyphs) && RunsOf(glyphs, 0x2460, 0x24FF + 1, runs)
    ensures runs == [Run(0x2460, 0x2460), Run(0x2469, 0x2469)]
  {
    forall cp: nat | 0x2460 <= cp <= 0x24FF
      ensures Carried(glyphs, cp) <==> cp == 0x2460 || cp == 0x2469
    {
      CarriedOfTwo(glyphs, cp);
    }
    hide Carried, Near, OnlyTwo;
    SplitBetween(glyphs, 0x2460, 0x24FF + 1, runs, 0x2460, 0x2469);
    assert Covered(runs, 0x2460) && Covered(runs, 0x2469);
    forall k | 0 <= k < |runs| ensures runs[k] == Run(0x2460, 0x2460) || runs[k] == Run(0x2469, 0x2469) {
      assert Tight(glyphs, runs[k]);
      assert !(Holds(runs[k], 0x2460) && Holds(runs[k], 0x2469));
    }
    hide Within, Complete, Covered, Together, Apart;
    TwoRuns(runs, Run(0x2460, 0x2460), Run(0x2469, 0x2469));
  }

  lemma CarriedOfTwo(glyphs: Glyphs, cp: nat)
    requires OnlyTwo(glyphs) && 0x2460 <= cp <= 0x24FF
    ensures Carried(glyphs, cp) <==> cp == 0x2460 || cp == 0x2469
  {
  }

  ghost predicate Either(k: int, i: int, j: int) { k == i || k == j }

  lemma TwoRuns(runs: seq<Run>, r: Run, r': Run)
    requires Apart(runs) && r.last < r'.first && r.first <= r.last && r'.first <= r'.last
    requires forall k :: 0 <= k < |runs| ==> runs[k] == r || runs[k] == r'
    requires Covered(runs, r.first) && Covered(runs, r'.first)
    ensures runs == [r, r']
  {
    var i: nat :| i < |runs| && Holds(runs[i], r.first);
    var j: nat :| j < |runs| && Holds(runs[j], r'.first);
    forall k: nat | k < |runs| ensures Either(k, i, j) {
      assert i < k ==> runs[i].last < runs[k].first;
      assert k < j ==> runs[k].last < runs[j].first;
    }
    assert Either(0, i, j) && (|runs| > 1 ==> Either(1, i, j)) && (|runs| > 2 ==> Either(2, i, j));
  }

  // ----- the tables -----

  /** A range's index array: one entry a code point, 0 or a slot of the table counted from 1. */
  datatype Range = Range(first: nat, last: nat, index: seq<nat>)

  predicate In(r: Range, cp: nat) { r.first <= cp <= r.last }

  /** Ranges in order, each with its whole array. */
  ghost predicate Ordered(ranges: seq<Range>) {
    && (forall i :: 0 <= i < |ranges| ==>
          ranges[i].first <= ranges[i].last && |ranges[i].index| == ranges[i].last - ranges[i].first + 1)
    && (forall i, j :: 0 <= i < j < |ranges| ==> ranges[i].last < ranges[j].first)
  }

  /** An array points to the glyph wanted, or says that there is none. */
  ghost predicate Points(glyphs: Glyphs, order: seq<Glyph>, slot: nat, cp: nat) {
    match Wanted(glyphs, cp)
    case None => slot == 0
    case Some(g) => 1 <= slot <= |order| && order[slot - 1] == g
  }

  ghost predicate PointsAll(glyphs: Glyphs, order: seq<Glyph>, r: Range) {
    forall k :: 0 <= k < |r.index| ==> Points(glyphs, order, r.index[k], r.first + k)
  }

  lemma PointsTo(glyphs: Glyphs, order: seq<Glyph>, slot: nat, cp: nat)
    requires if Wanted(glyphs, cp).None? then slot == 0
             else 1 <= slot <= |order| && order[slot - 1] == Wanted(glyphs, cp).value
    ensures Points(glyphs, order, slot, cp)
  {
  }

  /** More glyphs behind the others change no slot. */
  lemma PointsKept(glyphs: Glyphs, order: seq<Glyph>, order': seq<Glyph>, r: Range)
    requires PointsAll(glyphs, order, r) && order <= order'
    ensures PointsAll(glyphs, order', r)
  {
    forall k | 0 <= k < |r.index| ensures Points(glyphs, order', r.index[k], r.first + k) {
      assert Points(glyphs, order, r.index[k], r.first + k);
    }
  }

  /** A glyph some code point of these runs is to be drawn with. */
  ghost predicate WantedIn(glyphs: Glyphs, runs: seq<Run>, g: Glyph) {
    exists cp: nat :: Covered(runs, cp) && Wanted(glyphs, cp) == Some(g)
  }

  lemma WantedInOne(glyphs: Glyphs, run: Run, cp: nat)
    requires Holds(run, cp) && Wanted(glyphs, cp).Some?
    ensures WantedIn(glyphs, [run], Wanted(glyphs, cp).value)
  {
    assert Holds([run][0], cp);
    assert Covered([run], cp);
  }

  lemma WantedInAll(glyphs: Glyphs, runs: seq<Run>, i: nat, g: Glyph)
    requires i < |runs| && WantedIn(glyphs, [runs[i]], g)
    ensures WantedIn(glyphs, runs, g)
  {
    var cp: nat :| Covered([runs[i]], cp) && Wanted(glyphs, cp) == Some(g);
    assert Holds(runs[i], cp);
    assert Covered(runs, cp);
  }

  /** Every slot remembered for a glyph holds that glyph. */
  ghost predicate Slotted(order: seq<Glyph>, slotOf: map<Glyph, nat>) {
    forall g :: g in slotOf ==> slotOf[g] < |order| && order[slotOf[g]] == g
  }

  /** The slots of one run; a glyph drawn before is shared, a new one goes behind the others. */
  method IndexRun(glyphs: Glyphs, run: Run, order: seq<Glyph>, slotOf: map<Glyph, nat>)
    returns (order': seq<Glyph>, slotOf': map<Glyph, nat>, index: seq<nat>)
    requires run.first <= run.last && Slotted(order, slotOf)
    ensures order <= order' && Slotted(order', slotOf')
    ensures forall g :: g in order' ==> g in order || WantedIn(glyphs, [run], g)
    ensures |index| == run.last - run.first + 1
    ensures PointsAll(glyphs, order', Range(run.first, run.last, index))
  {
    order', slotOf', index := order, slotOf, [];
    for cp := run.first to run.last + 1
      invariant order <= order' && Slotted(order', slotOf')
      invariant forall g :: g in order' ==> g in order || WantedIn(glyphs, [run], g)
      invariant |index| == cp - run.first
      invariant PointsAll(glyphs, order', Range(run.first, run.last, index))
    {
      ghost var before := order';
      var wanted := Wanted(glyphs, cp);
      var slot := 0;
      hide Points, Covered, WantedIn;
      if wanted.Some? {
        WantedInOne(glyphs, run, cp);
        order', slotOf', slot := SlotFor(wanted.value, order', slotOf');
        slot := slot + 1;
      }
      PointsKept(glyphs, before, order', Range(run.first, run.last, index));
      index := index + [slot];
      PointsTo(glyphs, order', slot, cp);
    }
  }

  method SlotFor(g: Glyph, order: seq<Glyph>, slotOf: map<Glyph, nat>)
    returns (order': seq<Glyph>, slotOf': map<Glyph, nat>, slot: nat)
    requires Slotted(order, slotOf)
    ensures order <= order' && Slotted(order', slotOf')
    ensures slot < |order'| && order'[slot] == g && g in slotOf'
    ensures order' == if g in slotOf then order else order + [g]
  {
    if g in slotOf { return order, slotOf, slotOf[g]; }
    slot := |order|;
    order', slotOf' := order + [g], slotOf[g := slot];
  }

  const COVERAGE: seq<Run> := [
    Run(0x00A0, 0x00FF), Run(0x0100, 0x017F), Run(0x01A0, 0x01B0), Run(0x0250, 0x02AF), Run(0x0370, 0x03FF),
    Run(0x0400, 0x04FF), Run(0x1E9E, 0x1EF9), Run(0x2002, 0x2027), Run(0x20A1, 0x20C0), Run(0x2100, 0x214F),
    Run(0x2460, 0x24FF), Run(0x25A0, 0x25FF), Run(0x3000, 0x9FFF), Run(0xAC00, 0xD7A3), Run(0xFF00, 0xFFFF)
  ]

  lemma CoverageInOrder()
    ensures InOrder(COVERAGE)
  {
  }

  ghost predicate Found(ranges: seq<Range>, cp: nat) { exists i :: 0 <= i < |ranges| && In(ranges[i], cp) }

  // ----- the lookup -----

  /** The dense span in place, ranges that say where the rest is. */
  datatype Font = Font(table: seq<Entry>, ranges: seq<Range>)

  ghost predicate Wellformed(font: Font) {
    && |font.table| >= DENSE && Ordered(font.ranges)
    && forall i, k :: 0 <= i < |font.ranges| && 0 <= k < |font.ranges[i].index| ==> font.ranges[i].index[k] <= |font.table|
  }

  /** What the renderer is to find. */
  ghost predicate Leads(font: Font, cp: nat, g: Option<Entry>)
    requires Wellformed(font)
  {
    if InDense(cp) then g == Some(font.table[cp - DENSE_FIRST])
    else
      && (!Found(font.ranges, cp) ==> g == None)
      && forall i :: 0 <= i < |font.ranges| && In(font.ranges[i], cp) ==>
           var slot := font.ranges[i].index[cp - font.ranges[i].first];
           g == if slot == 0 then None else Some(font.table[slot - 1])
  }

  /** The first range that does not end before a code point, by bisection. */
  method GlyphFor(font: Font, cp: nat) returns (g: Option<Entry>)
    requires Wellformed(font)
    ensures Leads(font, cp, g)
  {
    if InDense(cp) { return Some(font.table[cp - DENSE_FIRST]); }
    var lo, hi := 0, |font.ranges|;
    while lo < hi
      invariant 0 <= lo <= hi <= |font.ranges|
      invariant forall i :: 0 <= i < lo ==> font.ranges[i].last < cp
      invariant forall i :: hi <= i < |font.ranges| ==> font.ranges[i].last >= cp
    {
      var mid := (lo + hi) / 2;
      if font.ranges[mid].last < cp { lo := mid + 1; } else { hi := mid; }
    }
    if lo == |font.ranges| || cp < font.ranges[lo].first { return None; }
    var slot := font.ranges[lo].index[cp - font.ranges[lo].first];
    return if slot == 0 then None else Some(font.table[slot - 1]);
  }

  // ----- building -----

  ghost predicate InOrder(runs: seq<Run>) {
    && (forall i :: 0 <= i < |runs| ==> DENSE_LAST < runs[i].first <= runs[i].last)
    && (forall i, j :: 0 <= i < j < |runs| ==> runs[i].last < runs[j].first)
  }

  /** All runs of the blocks, and nothing outside them. */
  ghost predicate Splits(glyphs: Glyphs, blocks: seq<Run>, all: seq<Run>) {
    && InOrder(all)
    && (forall cp :: Covered(all, cp) ==> Covered(blocks, cp))
    && (forall cp :: Covered(blocks, cp) && Carried(glyphs, cp) ==> Covered(all, cp))
  }

  ghost predicate Below(runs: seq<Run>, end: nat) { forall i :: 0 <= i < |runs| ==> runs[i].last < end }

  method AllRuns(glyphs: Glyphs, blocks: seq<Run>) returns (all: seq<Run>)
    requires InOrder(blocks)
    ensures Splits(glyphs, blocks, all)
  {
    all := [];
    hide *;
    NoBlocks(glyphs);
    ghost var end: nat := DENSE_LAST + 1;
    for b := 0 to |blocks|
      invariant Splits(glyphs, blocks[..b], all) && Below(all, end)
      invariant end == if b == 0 then DENSE_LAST + 1 else blocks[b - 1].last + 1
    {
      BlockIn(blocks, b);
      var runs := Narrow(glyphs, blocks[b].first, blocks[b].last);
      BlockDone(glyphs, blocks[..b], blocks[b], end, all, runs);
      assert blocks[..b + 1] == blocks[..b] + [blocks[b]];
      all := all + runs;
      end := blocks[b].last + 1;
    }
    assert blocks[..|blocks|] == blocks;
  }

  lemma NoBlocks(glyphs: Glyphs)
    ensures Splits(glyphs, [], []) && Below([], DENSE_LAST + 1)
  {
  }

  lemma BlockIn(blocks: seq<Run>, b: nat)
    requires InOrder(blocks) && b < |blocks|
    ensures DENSE_LAST < blocks[b].first <= blocks[b].last && (b > 0 ==> blocks[b - 1].last < blocks[b].first)
  {
  }

  lemma CoveredBoth(a: seq<Run>, b: seq<Run>, cp: nat)
    ensures Covered(a + b, cp) <==> Covered(a, cp) || Covered(b, cp)
  {
    if Covered(a, cp) {
      var i :| 0 <= i < |a| && Holds(a[i], cp);
      assert Holds((a + b)[i], cp);
    }
    if Covered(b, cp) {
      var i :| 0 <= i < |b| && Holds(b[i], cp);
      assert Holds((a + b)[|a| + i], cp);
    }
  }

  lemma OneRun(r: Run, cp: nat)
    ensures Covered([r], cp) <==> Holds(r, cp)
  {
    assert [r][0] == r;
  }

  /** The runs of the next block come behind those of the earlier ones. */
  lemma BlockDone(glyphs: Glyphs, blocks: seq<Run>, block: Run, end: nat, all: seq<Run>, runs: seq<Run>)
    requires Splits(glyphs, blocks, all) && Below(all, end) && end <= block.first <= block.last && DENSE_LAST < block.first
    requires RunsOf(glyphs, block.first, block.last + 1, runs)
    ensures Splits(glyphs, blocks + [block], all + runs) && Below(all + runs, block.last + 1)
  {
    Behind(glyphs, block, end, all, runs);
    forall cp ensures Covered(all + runs, cp) ==> Covered(blocks + [block], cp)
      ensures Covered(blocks + [block], cp) && Carried(glyphs, cp) ==> Covered(all + runs, cp)
    {
      CoveredBoth(all, runs, cp);
      CoveredBoth(blocks, [block], cp);
      OneRun(block, cp);
      RunsInside(glyphs, block, runs, cp);
    }
    hide Covered, Carried, Holds, RunsOf, InOrder;
  }

  lemma RunsInside(glyphs: Glyphs, block: Run, runs: seq<Run>, cp: nat)
    requires RunsOf(glyphs, block.first, block.last + 1, runs)
    ensures Covered(runs, cp) ==> Holds(block, cp)
    ensures Holds(block, cp) && Carried(glyphs, cp) ==> Covered(runs, cp)
  {
  }

  lemma Behind(glyphs: Glyphs, block: Run, end: nat, all: seq<Run>, runs: seq<Run>)
    requires InOrder(all) && Below(all, end) && end <= block.first <= block.last && DENSE_LAST < block.first
    requires RunsOf(glyphs, block.first, block.last + 1, runs)
    ensures InOrder(all + runs) && Below(all + runs, block.last + 1)
  {
    hide Complete, Tight;
  }

  /** The ranges are the runs, each with its index array. */
  ghost predicate Indexed(glyphs: Glyphs, order: seq<Glyph>, runs: seq<Run>, ranges: seq<Range>) {
    && |ranges| == |runs|
    && forall i :: 0 <= i < |runs| ==>
         && ranges[i].first == runs[i].first && ranges[i].last == runs[i].last
         && |ranges[i].index| == runs[i].last - runs[i].first + 1
         && PointsAll(glyphs, order, ranges[i])
  }

  method IndexRuns(glyphs: Glyphs, runs: seq<Run>, dense: seq<Glyph>, slots: map<Glyph, nat>)
    returns (order: seq<Glyph>, ranges: seq<Range>)
    requires Slotted(dense, slots) && InOrder(runs)
    ensures dense <= order && Indexed(glyphs, order, runs, ranges)
    ensures forall g :: g in order ==> g in dense || WantedIn(glyphs, runs, g)
  {
    var slotOf := slots;
    order, ranges := dense, [];
    hide Slotted, PointsAll, WantedIn;
    for i := 0 to |runs|
      invariant dense <= order && Slotted(order, slotOf) && Indexed(glyphs, order, runs[..i], ranges)
      invariant forall g :: g in order ==> g in dense || WantedIn(glyphs, runs, g)
    {
      ghost var before := order;
      var index;
      order, slotOf, index := IndexRun(glyphs, runs[i], order, slotOf);
      forall g | g in order ensures g in dense || WantedIn(glyphs, runs, g) {
        if g !in before { WantedInAll(glyphs, runs, i, g); }
      }
      forall k | 0 <= k < i ensures PointsAll(glyphs, order, ranges[k]) {
        PointsKept(glyphs, before, order, ranges[k]);
      }
      ranges := ranges + [Range(runs[i].first, runs[i].last, index)];
    }
  }

  ghost predicate DenseList(glyphs: Glyphs, dense: seq<Glyph>) {
    |dense| == DENSE && forall cp: nat :: InDense(cp) ==> cp in glyphs && dense[cp - DENSE_FIRST] == glyphs[cp]
  }

  /** The dense glyphs in their places; the first slot of a glyph is the one shared. */
  method Dense(glyphs: Glyphs) returns (order: seq<Glyph>, slotOf: map<Glyph, nat>)
    requires forall cp :: InDense(cp) ==> cp in glyphs
    ensures DenseList(glyphs, order) && Slotted(order, slotOf)
  {
    order, slotOf := [], map[];
    for i := 0 to DENSE
      invariant |order| == i
      invariant forall cp: nat :: InDense(cp) && cp < DENSE_FIRST + i ==> order[cp - DENSE_FIRST] == glyphs[cp]
    {
      assert InDense(DENSE_FIRST + i);
      order := order + [glyphs[DENSE_FIRST + i]];
    }
    for i := 0 to DENSE
      invariant Slotted(order, slotOf)
    {
      if order[i] !in slotOf { slotOf := slotOf[order[i] := i]; }
    }
  }

  ghost predicate AllDraw(blob: seq<byte>, table: seq<Entry>, order: seq<Glyph>) {
    |table| <= |order| && forall i :: 0 <= i < |table| ==> Draws(blob, table[i], order[i])
  }

  /** Packs every glyph of the table; one that fits no record refuses the font. */
  method PackAll(order: seq<Glyph>, packer: Packer) returns (table: Option<seq<Entry>>)
    requires packer.Valid()
    modifies packer
    ensures packer.Valid() && old(packer.blob) <= packer.blob
    ensures table.Some? <==> forall g :: g in order ==> Representable(g)
    ensures table.Some? ==> |table.value| == |order| && AllDraw(packer.blob, table.value, order)
  {
    var t := [];
    hide *;
    NoneDrawn(packer.blob, order);
    for i := 0 to |order|
      invariant packer.Valid() && old(packer.blob) <= packer.blob
      invariant |t| == i && AllDraw(packer.blob, t, order)
      invariant forall k :: 0 <= k < i ==> Representable(order[k])
    {
      ghost var before := packer.blob;
      var e := packer.Add(order[i]);
      if e.None? { return None; }
      OneMoreDrawn(before, packer.blob, t, order, e.value);
      t := t + [e.value];
    }
    return Some(t);
  }

  lemma NoneDrawn(blob: seq<byte>, order: seq<Glyph>)
    ensures AllDraw(blob, [], order)
  {
  }

  lemma OneMoreDrawn(blob: seq<byte>, blob': seq<byte>, table: seq<Entry>, order: seq<Glyph>, e: Entry)
    requires AllDraw(blob, table, order) && blob <= blob'
    requires |table| < |order| && Draws(blob', e, order[|table|])
    ensures AllDraw(blob', table + [e], order)
  {
    hide Draws;
    forall k | 0 <= k < |table| ensures Draws(blob', table[k], order[k]) {
      DrawsKept(blob, blob', table[k], order[k]);
    }
  }

  /**
   Every lookup gives exactly what is wanted: a dense code point its glyph, a covered one the glyph it is
   to be drawn with or none, any other none.
   */
  ghost predicate Faithful(blob: seq<byte>, font: Font, glyphs: Glyphs, blocks: seq<Run>)
    requires Wellformed(font)
  {
    forall cp: nat, g: Option<Entry> :: Leads(font, cp, g) ==> Right(blob, glyphs, blocks, cp, g)
  }

  /** In the dense span or in a block. */
  ghost predicate Drawable(blocks: seq<Run>, cp: nat) { InDense(cp) || Covered(blocks, cp) }

  /** Every glyph the font's tables would hold fits a record. */
  ghost predicate AllFit(glyphs: Glyphs, blocks: seq<Run>) {
    forall cp: nat :: Drawable(blocks, cp) && Carried(glyphs, cp) ==> Representable(Wanted(glyphs, cp).value)
  }

  ghost predicate Right(blob: seq<byte>, glyphs: Glyphs, blocks: seq<Run>, cp: nat, g: Option<Entry>) {
    var wanted := if Drawable(blocks, cp) then Wanted(glyphs, cp) else None;
    match wanted
    case None => g == None
    case Some(glyph) => g.Some? && Draws(blob, g.value, glyph)
  }

  lemma IndexedFinds(glyphs: Glyphs, order: seq<Glyph>, runs: seq<Run>, ranges: seq<Range>, cp: nat)
    requires Indexed(glyphs, order, runs, ranges)
    ensures Found(ranges, cp) <==> Covered(runs, cp)
  {
    if Found(ranges, cp) {
      var i :| 0 <= i < |ranges| && In(ranges[i], cp);
      assert Holds(runs[i], cp);
    }
    if Covered(runs, cp) {
      var i :| 0 <= i < |runs| && Holds(runs[i], cp);
      assert In(ranges[i], cp);
    }
  }

  lemma IndexedWellformed(glyphs: Glyphs, order: seq<Glyph>, runs: seq<Run>, font: Font)
    requires Indexed(glyphs, order, runs, font.ranges) && InOrder(runs) && DENSE <= |order| == |font.table|
    ensures Wellformed(font)
  {
    forall i, k | 0 <= i < |font.ranges| && 0 <= k < |font.ranges[i].index|
      ensures font.ranges[i].index[k] <= |font.table|
    {
      assert PointsAll(glyphs, order, font.ranges[i]);
      assert Points(glyphs, order, font.ranges[i].index[k], font.ranges[i].first + k);
    }
    hide Points, PointsAll;
  }

  lemma SparseRight(blob: seq<byte>, glyphs: Glyphs, blocks: seq<Run>, order: seq<Glyph>, runs: seq<Run>, font: Font,
                    cp: nat, g: Option<Entry>)
    requires Wellformed(font) && Indexed(glyphs, order, runs, font.ranges) && Splits(glyphs, blocks, runs)
    requires |font.table| == |order| && AllDraw(blob, font.table, order)
    requires !InDense(cp) && Leads(font, cp, g)
    ensures Right(blob, glyphs, blocks, cp, g)
  {
    IndexedFinds(glyphs, order, runs, font.ranges, cp);
    SplitsAt(glyphs, blocks, runs, cp);
    if Found(font.ranges, cp) {
      var i :| 0 <= i < |font.ranges| && In(font.ranges[i], cp);
      SlotPoints(glyphs, order, runs, font, cp, i);
      LeadsAt(font, cp, g, i);
      hide *;
      SlotRight(blob, glyphs, blocks, order, font.table, font.ranges[i].index[cp - font.ranges[i].first], cp, g);
    } else {
      NoneRight(blob, glyphs, blocks, cp);
    }
    hide *;
  }

  lemma SplitsAt(glyphs: Glyphs, blocks: seq<Run>, runs: seq<Run>, cp: nat)
    requires Splits(glyphs, blocks, runs)
    ensures Covered(runs, cp) ==> Covered(blocks, cp)
    ensures Covered(blocks, cp) && Carried(glyphs, cp) ==> Covered(runs, cp)
  {
  }

  lemma LeadsAt(font: Font, cp: nat, g: Option<Entry>, i: nat)
    requires Wellformed(font) && Leads(font, cp, g) && !InDense(cp) && i < |font.ranges| && In(font.ranges[i], cp)
    ensures cp - font.ranges[i].first < |font.ranges[i].index|
    ensures var slot := font.ranges[i].index[cp - font.ranges[i].first];
            slot <= |font.table| && g == if slot == 0 then None else Some(font.table[slot - 1])
  {
    var k := cp - font.ranges[i].first;
    assert k < |font.ranges[i].index|;
    assert font.ranges[i].index[k] <= |font.table|;
  }

  lemma NoneRight(blob: seq<byte>, glyphs: Glyphs, blocks: seq<Run>, cp: nat)
    requires !InDense(cp) && !(Covered(blocks, cp) && Carried(glyphs, cp))
    ensures Right(blob, glyphs, blocks, cp, None)
  {
    hide Covered;
  }

  lemma SlotRight(blob: seq<byte>, glyphs: Glyphs, blocks: seq<Run>, order: seq<Glyph>, table: seq<Entry>, slot: nat,
                  cp: nat, g: Option<Entry>)
    requires |table| == |order| && AllDraw(blob, table, order) && Points(glyphs, order, slot, cp)
    requires g == (if slot == 0 || slot > |table| then None else Some(table[slot - 1])) && Covered(blocks, cp)
    ensures Right(blob, glyphs, blocks, cp, g)
  {
    hide Draws, Wanted, Covered;
  }

  lemma SlotPoints(glyphs: Glyphs, order: seq<Glyph>, runs: seq<Run>, font: Font, cp: nat, i: nat)
    requires Indexed(glyphs, order, runs, font.ranges) && i < |font.ranges| && In(font.ranges[i], cp)
    ensures cp - font.ranges[i].first < |font.ranges[i].index|
    ensures Points(glyphs, order, font.ranges[i].index[cp - font.ranges[i].first], cp)
  {
    var r := font.ranges[i];
    assert PointsAll(glyphs, order, r);
    assert Points(glyphs, order, r.index[cp - r.first], r.first + (cp - r.first));
  }

  /** The table holds what the drawable code points are drawn with, and nothing else. */
  lemma TableFits(glyphs: Glyphs, blocks: seq<Run>, dense: seq<Glyph>, runs: seq<Run>, order: seq<Glyph>,
                  ranges: seq<Range>)
    requires DenseList(glyphs, dense) && dense <= order
    requires Indexed(glyphs, order, runs, ranges) && Splits(glyphs, blocks, runs)
    requires forall g :: g in order ==> g in dense || WantedIn(glyphs, runs, g)
    ensures AllFit(glyphs, blocks) <==> forall g :: g in order ==> Representable(g)
  {
    hide Representable;
    if AllFit(glyphs, blocks) {
      forall g | g in order ensures Representable(g) { FitsByTable(glyphs, blocks, dense, runs, g); }
    }
    if forall g :: g in order ==> Representable(g) {
      forall cp: nat | Drawable(blocks, cp) && Carried(glyphs, cp) ensures Representable(Wanted(glyphs, cp).value) {
        InTable(glyphs, blocks, dense, runs, order, ranges, cp);
      }
    }
  }

  lemma FitsByTable(glyphs: Glyphs, blocks: seq<Run>, dense: seq<Glyph>, runs: seq<Run>, g: Glyph)
    requires AllFit(glyphs, blocks) && Splits(glyphs, blocks, runs) && DenseList(glyphs, dense)
    requires g in dense || WantedIn(glyphs, runs, g)
    ensures Representable(g)
  {
    hide Representable, Covered, InOrder;
    if g in dense {
      var i :| 0 <= i < DENSE && dense[i] == g;
      assert InDense(DENSE_FIRST + i);
      assert Drawable(blocks, DENSE_FIRST + i) && Carried(glyphs, DENSE_FIRST + i);
    } else {
      var cp: nat :| Covered(runs, cp) && Wanted(glyphs, cp) == Some(g);
      assert Drawable(blocks, cp) && Carried(glyphs, cp);
    }
  }

  lemma InTable(glyphs: Glyphs, blocks: seq<Run>, dense: seq<Glyph>, runs: seq<Run>, order: seq<Glyph>,
                ranges: seq<Range>, cp: nat)
    requires DenseList(glyphs, dense) && dense <= order
    requires Indexed(glyphs, order, runs, ranges) && Splits(glyphs, blocks, runs)
    requires Drawable(blocks, cp) && Carried(glyphs, cp)
    ensures Wanted(glyphs, cp).value in order
  {
    if InDense(cp) {
      assert order[cp - DENSE_FIRST] == dense[cp - DENSE_FIRST] == glyphs[cp];
    } else {
      SplitsAt(glyphs, blocks, runs, cp);
      IndexedFinds(glyphs, order, runs, ranges, cp);
      var i :| 0 <= i < |ranges| && In(ranges[i], cp);
      SlotPoints(glyphs, order, runs, Font([], ranges), cp, i);
      hide Indexed, Splits, Wanted;
    }
  }

  /**
   Lays a font out into the shared blob: refused exactly if a glyph it would hold fits no record. Fonts
   laid out before keep drawing what they drew.
   */
  method BuildFont(glyphs: Glyphs, blocks: seq<Run>, packer: Packer) returns (font: Option<Font>)
    requires InOrder(blocks) && packer.Valid()
    requires forall cp :: InDense(cp) ==> cp in glyphs
    modifies packer
    ensures packer.Valid() && old(packer.blob) <= packer.blob
    ensures font.Some? <==> AllFit(glyphs, blocks)
    ensures font.Some? ==> Wellformed(font.value) && Faithful(packer.blob, font.value, glyphs, blocks)
  {
    var dense, slotOf := Dense(glyphs);
    var runs := AllRuns(glyphs, blocks);
    var order, ranges := IndexRuns(glyphs, runs, dense, slotOf);
    TableFits(glyphs, blocks, dense, runs, order, ranges);
    var table := PackAll(order, packer);
    hide Indexed, Splits, AllFit, WantedIn, AllDraw, Slotted, Representable;
    if table.None? { return None; }
    var f := Font(table.value, ranges);
    IndexedWellformed(glyphs, order, runs, f);
    forall cp: nat, g: Option<Entry> | Leads(f, cp, g) ensures Right(packer.blob, glyphs, blocks, cp, g) {
      if InDense(cp) {
        DenseRight(packer.blob, glyphs, blocks, dense, order, f, cp, g);
      } else {
        SparseRight(packer.blob, glyphs, blocks, order, runs, f, cp, g);
      }
    }
    return Some(f);
  }

  lemma DenseRight(blob: seq<byte>, glyphs: Glyphs, blocks: seq<Run>, dense: seq<Glyph>, order: seq<Glyph>, font: Font,
                   cp: nat, g: Option<Entry>)
    requires Wellformed(font) && InDense(cp) && Leads(font, cp, g) && DenseList(glyphs, dense) && dense <= order
    requires |font.table| == |order| && AllDraw(blob, font.table, order)
    ensures Right(blob, glyphs, blocks, cp, g)
  {
    hide Draws, Covered, Ordered;
    var i := cp - DENSE_FIRST;
    assert order[i] == dense[i] == glyphs[cp];
  }

  /**
   What a lookup in a panel font gives, glyph by glyph: the code point's own, the space's for a no-break space
   the font does not have, and none outside the blocks.
   */
  lemma PanelLookup(blob: seq<byte>, font: Font, glyphs: Glyphs, cp: nat, g: Option<Entry>)
    requires Wellformed(font) && Faithful(blob, font, glyphs, COVERAGE) && Leads(font, cp, g)
    requires forall c :: 32 <= c <= 126 ==> c in glyphs
    ensures cp in glyphs && (32 <= cp <= 126 || Covered(COVERAGE, cp)) ==> g.Some? && Draws(blob, g.value, glyphs[cp])
    ensures cp == 0xA0 && cp !in glyphs ==> g.Some? && Draws(blob, g.value, glyphs[32])
    ensures cp != 0xA0 && cp !in glyphs ==> g == None
    ensures !(32 <= cp <= 126) && !Covered(COVERAGE, cp) ==> g == None
  {
    assert Right(blob, glyphs, COVERAGE, cp, g);
    if cp == 0xA0 { assert Holds(COVERAGE[0], cp); }
    hide Draws, Leads, Wellformed, Faithful, Covered;
  }

  /** The panel's fonts: the blocks are fixed. */
  method BuildPanelFont(glyphs: Glyphs, packer: Packer) returns (font: Option<Font>)
    requires packer.Valid() && forall cp :: InDense(cp) ==> cp in glyphs
    modifies packer
    ensures packer.Valid() && old(packer.blob) <= packer.blob
    ensures font.Some? <==> AllFit(glyphs, COVERAGE)
    ensures font.Some? ==> Wellformed(font.value) && Faithful(packer.blob, font.value, glyphs, COVERAGE)
  {
    CoverageInOrder();
    hide *;
    font := BuildFont(glyphs, COVERAGE, packer);
  }
}
