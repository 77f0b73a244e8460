/**
 The log ring: a fixed byte array holding the newest lines, each as one length byte and its text. The
 bytes ever written form one endless tape, and the ring shows the end of it.
 */
module LogRing {
  import opened Bits

  const LINE_MAX := 120
  const RING_BYTES := 34 * (80 + 1)

  /** A line's text; the cut leaves room for a terminator. */
  type Line = s: seq<byte> | |s| < LINE_MAX

  function Record(line: Line): seq<byte> { [|line|] + line }

  /** The tape the lines make. */
  function Tape(lines: seq<Line>): seq<byte> {
    if lines == [] then [] else Tape(lines[..|lines| - 1]) + Record(lines[|lines| - 1])
  }

  /** Where line number `n` starts on the tape; the first line is number 1. */
  function StartOf(hist: seq<Line>, n: nat): nat
    requires 1 <= n <= |hist| + 1
  {
    |Tape(hist[..n - 1])|
  }

  /** Lines that still fit: the longest suffix of all that were stored. */
  function Fitting(hist: seq<Line>, first: nat): (r: nat)
    requires 1 <= first <= |hist| + 1
    ensures first <= r <= |hist| + 1
    ensures |Tape(hist)| - StartOf(hist, r) <= RING_BYTES
    ensures forall n :: first <= n < r ==> |Tape(hist)| - StartOf(hist, n) > RING_BYTES
    decreases |hist| + 1 - first
  {
    assert hist[..|hist|] == hist;
    if |Tape(hist)| - StartOf(hist, first) <= RING_BYTES then first else Fitting(hist, first + 1)
  }

  /** None of the lines below number `first` fits, if `extra` bytes follow the tape. */
  ghost predicate Unfit(hist: seq<Line>, first: nat, extra: nat)
    requires first <= |hist| + 1
  {
    forall n :: 1 <= n < first ==> |Tape(hist)| + extra - StartOf(hist, n) > RING_BYTES
  }

  lemma {:induction false} StartsGrow(hist: seq<Line>, m: nat, n: nat)
    requires 1 <= m < n <= |hist| + 1
    ensures StartOf(hist, m) + 1 + |hist[m - 1]| <= StartOf(hist, n) <= |Tape(hist)|
    ensures n == m + 1 ==> StartOf(hist, m) + 1 + |hist[m - 1]| == StartOf(hist, n)
    decreases |hist| - m
  {
    assert hist[..m][..m - 1] == hist[..m - 1];
    TapePrefix(hist, n - 1);
    if m + 1 < n { StartsGrow(hist, m + 1, n); }
  }

  lemma {:induction false} TapePrefix(hist: seq<Line>, k: nat)
    requires k <= |hist|
    ensures Tape(hist[..k]) <= Tape(hist)
    decreases |hist|
  {
    if k == |hist| {
      assert hist[..k] == hist;
    } else {
      var init := hist[..|hist| - 1];
      TapePrefix(init, k);
      assert init[..k] == hist[..k];
    }
  }

  /** A line's record stands on the tape at its start. */
  lemma RecordOnTape(hist: seq<Line>, n: nat)
    requires 1 <= n <= |hist|
    ensures var at := StartOf(hist, n);
            && at + 1 + |hist[n - 1]| <= |Tape(hist)|
            && Tape(hist)[at] == |hist[n - 1]|
            && Tape(hist)[at + 1..at + 1 + |hist[n - 1]|] == hist[n - 1]
  {
    TapePrefix(hist, n);
    assert hist[..n][..n - 1] == hist[..n - 1];
    InPrefix(Tape(hist[..n - 1]), hist[n - 1], Tape(hist));
  }

  lemma InPrefix(front: seq<byte>, line: Line, tape: seq<byte>)
    requires front + Record(line) <= tape
    ensures |front| + 1 + |line| <= |tape| && tape[|front|] == |line|
    ensures tape[|front| + 1..|front| + 1 + |line|] == line
  {
    var upTo := front + Record(line);
    assert tape[|front|] == upTo[|front|];
    assert tape[|front| + 1..|upTo|] == upTo[|front| + 1..] == line;
  }

  /** Where a place on the tape is in the ring. */
  function Slot(i: nat): (s: nat)
    ensures s < RING_BYTES
  {
    i % RING_BYTES
  }

  function Wrapped(offset: nat): nat { if offset < RING_BYTES then offset else offset - RING_BYTES }

  lemma WrappedSlot(i: nat, k: nat)
    requires k <= RING_BYTES
    ensures Wrapped(Slot(i) + k) == Slot(i + k)
  {
  }

  lemma SlotsDiffer(i: nat, j: nat)
    requires i < j < i + RING_BYTES
    ensures Slot(i) != Slot(j)
  {
  }

  class Ring {
    const bytes: array<byte>
    var oldest: nat     // offset of the first record shown
    var used: nat
    var oldestSeq: nat
    var newest: nat     // the newest line's number
    ghost var hist: seq<Line>  // every line ever stored

    constructor ()
      ensures Valid() && hist == [] && fresh(bytes)
    {
      bytes := new byte[RING_BYTES](i => 0);
      oldest, used, oldestSeq, newest, hist := 0, 0, 1, 0, [];
    }

    /** The ring shows the tape from the oldest line on. */
    ghost predicate Shows(tape: seq<byte>, from: nat)
      reads bytes
    {
      bytes.Length == RING_BYTES && forall i :: from <= i < |tape| ==> bytes[Slot(i)] == tape[i]
    }

    ghost predicate Valid()
      reads this, bytes
    {
      && newest == |hist| && 1 <= oldestSeq <= newest + 1
      && oldest == Slot(StartOf(hist, oldestSeq))
      && StartOf(hist, oldestSeq) + used == |Tape(hist)| && used <= RING_BYTES
      && Shows(Tape(hist), StartOf(hist, oldestSeq))
    }

    function AfterLine(lengthAt: nat): nat
      requires lengthAt < bytes.Length
      reads bytes
    {
      Wrapped(lengthAt + 1 + bytes[lengthAt])
    }

    /** Following the length bytes leads from line to line. */
    lemma NextLine(n: nat)
      requires Valid() && oldestSeq <= n <= newest
      ensures var at := Slot(StartOf(hist, n));
              && bytes[at] == |hist[n - 1]|
              && AfterLine(at) == Slot(StartOf(hist, n + 1))
    {
      RecordOnTape(hist, n);
      if oldestSeq < n { StartsGrow(hist, oldestSeq, n); }
      StartsGrow(hist, n, n + 1);
      WrappedSlot(StartOf(hist, n), 1 + |hist[n - 1]|);
    }

    /** No line was dropped that would still fit. */
    ghost predicate Longest()
      requires Valid()
      reads this, bytes
    {
      Unfit(hist, oldestSeq, 0)
    }

    /** So the lines kept are the longest suffix of all lines that fits the ring. */
    lemma KeepsFitting()
      requires Valid() && Longest()
      ensures oldestSeq == Fitting(hist, 1)
    {
      var r := Fitting(hist, 1);
      assert |Tape(hist)| - StartOf(hist, oldestSeq) <= RING_BYTES;
    }

    /** Takes the oldest line off the end. */
    method Evict()
      requires Valid() && oldestSeq <= newest
      modifies this`oldest, this`used, this`oldestSeq
      ensures Valid() && oldestSeq == old(oldestSeq) + 1
      ensures old(used) == |Tape(hist)| - StartOf(hist, old(oldestSeq))
    {
      NextLine(oldestSeq);
      StartsGrow(hist, oldestSeq, oldestSeq + 1);
      hide Tape, StartOf, Slot;
      used := used - (1 + bytes[oldest]);
      oldest := AfterLine(oldest);
      oldestSeq := oldestSeq + 1;
    }

    /** Drops the oldest lines until a line of this length fits. */
    method MakeRoom(length: nat)
      requires Valid() && Longest() && length < LINE_MAX
      modifies this`oldest, this`used, this`oldestSeq
      ensures Valid() && used + length + 1 <= RING_BYTES
      ensures oldestSeq >= old(oldestSeq) && Unfit(hist, oldestSeq, length + 1)
    {
      while RING_BYTES - used < length + 1
        invariant Valid() && oldestSeq >= old(oldestSeq) && Unfit(hist, oldestSeq, length + 1)
        decreases newest + 1 - oldestSeq
      {
        NotEmpty();
        Evict();
        hide Tape, StartOf, Slot, Shows;
      }
    }

    lemma NotEmpty()
      requires Valid() && used > 0
      ensures oldestSeq <= newest
    {
      assert hist[..newest] == hist;
    }

    /** Writes a record behind tape position `end`: its length byte, then the text in up to two pieces. */
    method WriteRecord(lengthAt: nat, line: Line, ghost end: nat)
      requires bytes.Length == RING_BYTES && lengthAt == Slot(end)
      modifies bytes
      ensures forall j :: 0 <= j <= |line| ==> bytes[Slot(end + j)] == Record(line)[j]
      ensures forall i :: i < end && end + |line| < i + RING_BYTES ==> 0 <= i ==> bytes[Slot(i)] == old(bytes[Slot(i)])
    {
      var length := |line|;
      bytes[lengthAt] := length;
      var textAt := Wrapped(lengthAt + 1);
      var untilEnd := if length <= RING_BYTES - textAt then length else RING_BYTES - textAt;
      WrappedSlot(end, 1);
      forall i | 0 <= i < untilEnd { bytes[textAt + i] := line[i]; }
      forall i | 0 <= i < length - untilEnd { bytes[i] := line[untilEnd + i]; }
      Spared(end, end, length);
      forall j | 0 <= j <= length ensures bytes[Slot(end + j)] == Record(line)[j] {
        if j > 0 { WrappedSlot(end + 1, j - 1); }
      }
      forall i | 0 <= i < end && end + length < i + RING_BYTES ensures bytes[Slot(i)] == old(bytes[Slot(i)]) {
        Spared(i, end, length);
        SlotsDiffer(i, end);
      }
    }

    /** Puts a line's record behind the tape shown. */
    method Append(line: Line, lengthAt: nat, ghost tape: seq<byte>, ghost from: nat)
      requires from <= |tape| && |tape| + 1 + |line| <= from + RING_BYTES
      requires Shows(tape, from) && lengthAt == Slot(|tape|)
      modifies bytes
      ensures Shows(tape + Record(line), from)
    {
      WriteRecord(lengthAt, line, |tape|);
      hide Slot;
      forall i | from <= i < |tape| + 1 + |line| ensures bytes[Slot(i)] == (tape + Record(line))[i] {
        if i >= |tape| { assert i == |tape| + (i - |tape|); }
      }
    }

    /** Stores a line, evicting as many of the oldest as it takes. */
    method Store(line: Line)
      requires Valid() && Longest()
      modifies this, bytes
      ensures Valid() && Longest() && hist == old(hist) + [line] && oldestSeq >= old(oldestSeq)
    {
      hide *;
      MakeRoom(|line|);
      var lengthAt := Wrapped(oldest + used);
      Shown();
      Append(line, lengthAt, Tape(hist), StartOf(hist, oldestSeq));
      Extended(hist, line, oldestSeq);
      used := used + 1 + |line|;
      newest := newest + 1;
      hist := hist + [line];
      Reassembled();
    }

    /** What a valid ring is made of. */
    lemma Shown()
      requires Valid()
      ensures newest == |hist| && 1 <= oldestSeq <= newest + 1
      ensures StartOf(hist, oldestSeq) + used == |Tape(hist)|
      ensures oldest == Slot(StartOf(hist, oldestSeq)) && Wrapped(oldest + used) == Slot(|Tape(hist)|)
      ensures Shows(Tape(hist), StartOf(hist, oldestSeq))
    {
      WrappedSlot(StartOf(hist, oldestSeq), used);
    }

    lemma Reassembled()
      requires newest == |hist| && 1 <= oldestSeq <= newest + 1
      requires StartOf(hist, oldestSeq) + used == |Tape(hist)| && used <= RING_BYTES
      requires oldest == Slot(StartOf(hist, oldestSeq)) && Shows(Tape(hist), StartOf(hist, oldestSeq))
      requires Unfit(hist, oldestSeq, 0)
      ensures Valid() && Longest()
    {
    }

    method StoreAll(lines: seq<Line>)
      requires Valid() && Longest()
      modifies this, bytes
      ensures Valid() && Longest() && hist == old(hist) + lines && oldestSeq >= old(oldestSeq)
    {
      for k := 0 to |lines|
        invariant Valid() && Longest() && hist == old(hist) + lines[..k] && oldestSeq >= old(oldestSeq)
      {
        Store(lines[k]);
        assert lines[..k] + [lines[k]] == lines[..k + 1];
      }
      assert lines[..|lines|] == lines;
    }

    /** Copies a line out, in up to two pieces. */
    method Load(lengthAt: nat, ghost n: nat) returns (text: seq<byte>)
      requires Valid() && oldestSeq <= n <= newest && lengthAt == Slot(StartOf(hist, n))
      ensures text == hist[n - 1]
    {
      NextLine(n);
      var length: nat := bytes[lengthAt];
      ghost var start := StartOf(hist, n);
      ShownText(n);
      hide StartOf, Tape, Slot, Shows;
      WrappedSlot(start, 1);
      var textAt := Wrapped(lengthAt + 1);
      var untilEnd := if length <= RING_BYTES - textAt then length else RING_BYTES - textAt;
      text := bytes[textAt..textAt + untilEnd] + bytes[..length - untilEnd];
      forall j | 0 <= j < length ensures text[j] == hist[n - 1][j] {
        WrappedSlot(start + 1, j);
      }
    }

    ghost predicate Holds(start: nat, text: seq<byte>)
      requires bytes.Length == RING_BYTES
      reads bytes
    {
      forall j :: 0 <= j < |text| ==> bytes[Slot(start + j)] == text[j]
    }

    /** The bytes behind a line's length byte are its text. */
    lemma ShownText(n: nat)
      requires Valid() && oldestSeq <= n <= newest
      ensures bytes.Length == RING_BYTES && Holds(StartOf(hist, n) + 1, hist[n - 1])
    {
      RecordOnTape(hist, n);
      if oldestSeq < n { StartsGrow(hist, oldestSeq, n); }
      var start, line := StartOf(hist, n), hist[n - 1];
      forall j | 0 <= j < |line| ensures bytes[Slot(start + 1 + j)] == line[j] {
        assert Tape(hist)[start + 1..start + 1 + |line|][j] == Tape(hist)[start + 1 + j];
      }
    }

    /** The reader stands at the start of line `n`, or that line is gone. */
    ghost predicate OnLine(n: nat, at: nat)
      requires Valid()
      reads this, bytes
    {
      1 <= n <= newest + 1 && (n >= oldestSeq ==> at == Slot(StartOf(hist, n)))
    }

    /** Where the lines after `after` begin, or where the next line will. */
    method FirstAfter(after: nat) returns (n: nat, at: nat)
      requires Valid()
      ensures oldestSeq <= n <= newest + 1 && at == Slot(StartOf(hist, n))
      ensures n == if after < oldestSeq then oldestSeq else if after <= newest then after + 1 else newest + 1
    {
      n, at := oldestSeq, oldest;
      while n <= after && n <= newest
        invariant oldestSeq <= n <= newest + 1 && at == Slot(StartOf(hist, n))
        invariant n > after ==> n == oldestSeq || n == after + 1
      {
        NextLine(n);
        at := AfterLine(at);
        n := n + 1;
      }
    }

    lemma ReaderStarts(n: nat, at: nat)
      requires Valid() && oldestSeq <= n <= newest + 1 && at == Slot(StartOf(hist, n))
      ensures OnLine(n, at)
    {
    }

    lemma Numbers()
      requires Valid()
      ensures newest == |hist| && 1 <= oldestSeq <= newest + 1
    {
    }

    /**
     One lock section of the reader: the line it stands on, or the oldest still there if that one is
     gone, or nothing if that is newer than the last line asked for.
     */
    method LineAt(n: nat, at: nat, next: nat) returns (n': nat, at': nat, out: seq<Emitted>)
      requires Valid() && OnLine(n, at) && n <= next <= newest
      ensures OnLine(n', at')
      ensures var m := if n < oldestSeq then oldestSeq else n;
              if m > next then n' == m && out == [] else n' == m + 1 && out == [Emitted(m, hist[m - 1])]
    {
      n', at', out := n, at, [];
      if n' < oldestSeq {
        n', at' := oldestSeq, oldest;
        if n' > next { return; }
      }
      var line := Load(at', n');
      NextLine(n');
      at' := AfterLine(at');
      out := [Emitted(n', line)];
      n' := n' + 1;
    }

    /**
     The lines after number `after`, one lock section a line. `stores` are the lines other tasks log
     before each lock section, the first of which only looks where to begin.
     */
    method StreamAfter(after: nat, stores: seq<seq<Line>>) returns (next: nat, out: seq<Emitted>)
      requires Valid() && Longest()
      modifies this, bytes
      ensures Valid() && Longest()
      ensures hist == Logged(old(hist), stores, |out|) || hist == Logged(old(hist), stores, |out| + 1)
      ensures next == |Logged(old(hist), stores, 0)| && Told(old(hist), stores, after, next, out)
      ensures Complete(old(hist), stores, after, next, out)
    {
      hide *;
      ghost var was := hist;
      LogMore(stores, was, 0);
      next := newest;
      Numbers();
      KeepsFitting();
      var n, at := FirstAfter(after);
      out := [];
      ReaderStarts(n, at);
      ToldNothing(was, stores, after, next);
      OldestIs(was, stores, 0);
      AheadUnfolds(was, stores, after, out);
      var k := 0;
      while n <= next
        invariant Valid() && Longest() && hist == Logged(was, stores, k) && next <= |hist|
        invariant OnLine(n, at) && 1 <= n && (k == |out| || (k == |out| + 1 && n > next))
        invariant Told(was, stores, after, next, out)
        invariant n <= next ==> n == Ahead(was, stores, after, out)
        invariant n > next ==> Last(after, out) >= next || OldestIn(was, stores, k) > next
        decreases next + 1 - n
      {
        NextSection(was, stores, next, n, at, k);
        k := k + 1;
        Numbers();
        KeepsFitting();
        OldestIs(was, stores, k);
        AheadUnfolds(was, stores, after, out);
        OldestRises(was, stores, 0);
        ghost var before := out;
        var more;
        n, at, more := LineAt(n, at, next);
        out := out + more;
        if more != [] {
          ToldNext(was, stores, after, next, before, more[0]);
          AheadUnfolds(was, stores, after, out);
        } else {
          assert out == before;
        }
      }
      Completed(was, stores, after, next, out, k);
    }

    /** What other tasks log before lock section `k`. */
    method LogMore(stores: seq<seq<Line>>, ghost was: seq<Line>, k: nat)
      requires Valid() && Longest() && hist == if k == 0 then was else Logged(was, stores, k - 1)
      modifies this, bytes
      ensures Valid() && Longest() && hist == Logged(was, stores, k)
    {
      LoggedUnfolds(was, stores, k);
      hide *;
      if k < |stores| { StoreAll(stores[k]); }
    }

    /** It leaves the reader's place good. */
    method NextSection(ghost was: seq<Line>, stores: seq<seq<Line>>, ghost next: nat, n: nat, at: nat, k: nat)
      requires Valid() && Longest() && hist == Logged(was, stores, k) && OnLine(n, at) && next <= |hist|
      modifies this, bytes
      ensures Valid() && Longest() && hist == Logged(was, stores, k + 1) && OnLine(n, at) && next <= |hist|
    {
      LoggedUnfolds(was, stores, k + 1);
      hide *;
      if k + 1 < |stores| { StoresKeepReader(n, at, stores[k + 1]); }
    }

    method StoresKeepReader(n: nat, at: nat, lines: seq<Line>)
      requires Valid() && Longest() && OnLine(n, at)
      modifies this, bytes
      ensures Valid() && Longest() && hist == old(hist) + lines && OnLine(n, at)
    {
      ghost var was := hist;
      StoreAll(lines);
      StartKept(was, hist, n);
    }
  }

  datatype Emitted = Emitted(number: nat, text: Line)

  // ----- what a reader is told -----

  /** All lines ever logged, as lock section `k` finds them. */
  ghost function Logged(was: seq<Line>, stores: seq<seq<Line>>, k: nat): seq<Line> {
    (if k == 0 then was else Logged(was, stores, k - 1)) + if k < |stores| then stores[k] else []
  }

  lemma LoggedUnfolds(was: seq<Line>, stores: seq<seq<Line>>, k: nat)
    ensures var before := if k == 0 then was else Logged(was, stores, k - 1);
            Logged(was, stores, k) == if k < |stores| then before + stores[k] else before
  {
  }

  /** The oldest line lock section `k` finds in the ring. */
  ghost function OldestIn(was: seq<Line>, stores: seq<seq<Line>>, k: nat): nat { Fitting(Logged(was, stores, k), 1) }

  function Last(after: nat, out: seq<Emitted>): nat { if out == [] then after else out[|out| - 1].number }

  /**
   The i-th line is told in lock section i + 1: it is the one after the line before, or if that is gone
   by then, the oldest that section finds. Its text is that number's line.
   */
  ghost predicate Told(was: seq<Line>, stores: seq<seq<Line>>, after: nat, next: nat, out: seq<Emitted>) {
    forall i :: 0 <= i < |out| ==> ToldAt(was, stores, after, next, out, i)
  }

  ghost predicate ToldAt(was: seq<Line>, stores: seq<seq<Line>>, after: nat, next: nat, out: seq<Emitted>, i: nat)
    requires i < |out|
  {
    var (lines, oldest, expected) := (Logged(was, stores, i + 1), OldestIn(was, stores, i + 1), Last(after, out[..i]) + 1);
    && out[i].number == (if expected < oldest then oldest else expected)
    && out[i].number <= next <= |lines| && out[i].text == lines[out[i].number - 1]
  }

  /** Nothing is left to tell, or the last lock section found only lines logged since the first. */
  ghost predicate Complete(was: seq<Line>, stores: seq<seq<Line>>, after: nat, next: nat, out: seq<Emitted>) {
    Last(after, out) >= next || OldestIn(was, stores, |out| + 1) > next
  }

  /** Where the reader stands before a lock section: behind the last line told, or at the first section's oldest. */
  ghost function Ahead(was: seq<Line>, stores: seq<seq<Line>>, after: nat, out: seq<Emitted>): nat {
    var n, oldest := Last(after, out) + 1, OldestIn(was, stores, 0);
    if out == [] && n < oldest then oldest else n
  }

  /**
   So the numbers rise, every text is that number's line, and a line asked for and not told was gone in
   the lock section that told the next one, or in the last if none did.
   */
  lemma SkipsOnlyEvicted(was: seq<Line>, stores: seq<seq<Line>>, after: nat, next: nat, out: seq<Emitted>, m: nat)
    requires Told(was, stores, after, next, out) && Complete(was, stores, after, next, out)
    requires after < m <= next && forall i :: 0 <= i < |out| ==> out[i].number != m
    ensures exists i :: GoneAt(was, stores, out, m, i)
  {
    var i := FirstAbove(out, m);
    if i < |out| { assert ToldAt(was, stores, after, next, out, i); }
    assert GoneAt(was, stores, out, m, i);
  }

  /** Line `m` is passed over in lock section i + 1, and is gone by then. */
  ghost predicate GoneAt(was: seq<Line>, stores: seq<seq<Line>>, out: seq<Emitted>, m: nat, i: nat) {
    && i <= |out| && m < OldestIn(was, stores, i + 1)
    && (i < |out| ==> m < out[i].number) && (i > 0 ==> out[i - 1].number < m)
  }

  function FirstAbove(out: seq<Emitted>, m: nat): (i: nat)
    ensures i <= |out| && (forall j :: 0 <= j < i ==> out[j].number <= m) && (i < |out| ==> out[i].number > m)
  {
    if out == [] || out[0].number > m then 0 else 1 + FirstAbove(out[1..], m)
  }

  lemma {:induction false} NumbersRise(was: seq<Line>, stores: seq<seq<Line>>, after: nat, next: nat, out: seq<Emitted>,
                                       i: nat, j: nat)
    requires Told(was, stores, after, next, out) && i < j < |out|
    ensures after < out[i].number < out[j].number
    decreases j
  {
    assert ToldAt(was, stores, after, next, out, j);
    if i < j - 1 {
      NumbersRise(was, stores, after, next, out, i, j - 1);
    } else {
      FirstNumber(was, stores, after, next, out, i);
    }
  }

  lemma {:induction false} FirstNumber(was: seq<Line>, stores: seq<seq<Line>>, after: nat, next: nat, out: seq<Emitted>, i: nat)
    requires Told(was, stores, after, next, out) && i < |out|
    ensures after < out[i].number <= next
    decreases i
  {
    assert ToldAt(was, stores, after, next, out, i);
    if i > 0 { FirstNumber(was, stores, after, next, out, i - 1); }
  }

  lemma ToldNothing(was: seq<Line>, stores: seq<seq<Line>>, after: nat, next: nat)
    ensures Told(was, stores, after, next, [])
  {
  }

  /** One more line, told in the next lock section. */
  lemma ToldNext(was: seq<Line>, stores: seq<seq<Line>>, after: nat, next: nat, out: seq<Emitted>, e: Emitted)
    requires Told(was, stores, after, next, out) && e.number <= next <= |Logged(was, stores, |out| + 1)|
    requires var (oldest, expected) := (OldestIn(was, stores, |out| + 1), Last(after, out) + 1);
             e.number == if expected < oldest then oldest else expected
    requires e.text == Logged(was, stores, |out| + 1)[e.number - 1]
    ensures Told(was, stores, after, next, out + [e]) && Last(after, out + [e]) == e.number
  {
    hide Logged, OldestIn;
    var more := out + [e];
    assert more[..|out|] == out;
    forall i | 0 <= i < |out| ensures ToldAt(was, stores, after, next, more, i) {
      assert more[..i] == out[..i];
      assert ToldAt(was, stores, after, next, out, i);
    }
  }

  lemma AheadUnfolds(was: seq<Line>, stores: seq<seq<Line>>, after: nat, out: seq<Emitted>)
    ensures var (n, oldest) := (Last(after, out) + 1, OldestIn(was, stores, 0));
            Ahead(was, stores, after, out) == if |out| == 0 && n < oldest then oldest else n
    ensures |out| == 0 ==> Last(after, out) == after
  {
  }

  lemma OldestIs(was: seq<Line>, stores: seq<seq<Line>>, k: nat)
    ensures OldestIn(was, stores, k) == Fitting(Logged(was, stores, k), 1)
  {
  }

  lemma Completed(was: seq<Line>, stores: seq<seq<Line>>, after: nat, next: nat, out: seq<Emitted>, k: nat)
    requires |out| <= k <= |out| + 1 && (Last(after, out) >= next || OldestIn(was, stores, k) > next)
    ensures Complete(was, stores, after, next, out)
  {
    OldestRises(was, stores, |out|);
    hide OldestIn;
  }

  /** Lines logged later never make an older line fit again. */
  lemma OldestRises(was: seq<Line>, stores: seq<seq<Line>>, k: nat)
    ensures OldestIn(was, stores, k) <= OldestIn(was, stores, k + 1)
  {
    var (a, b) := (Logged(was, stores, k), Logged(was, stores, k + 1));
    var first, last := Fitting(a, 1), Fitting(b, 1);
    assert b[..|a|] == a;
    TapePrefix(b, |a|);
    if last < first { StartKept(a, b, last); }
  }

  /** Another line lengthens the tape and moves no start. */
  lemma Extended(hist: seq<Line>, line: Line, first: nat)
    requires 1 <= first <= |hist| + 1 && Unfit(hist, first, 1 + |line|)
    ensures Tape(hist + [line]) == Tape(hist) + Record(line)
    ensures |Tape(hist + [line])| == |Tape(hist)| + 1 + |line|
    ensures StartOf(hist + [line], first) == StartOf(hist, first)
    ensures Unfit(hist + [line], first, 0)
  {
    assert (hist + [line])[..|hist|] == hist;
    forall n | 1 <= n <= first ensures StartOf(hist + [line], n) == StartOf(hist, n) {
      assert (hist + [line])[..n - 1] == hist[..n - 1];
    }
  }

  lemma StartKept(hist: seq<Line>, hist': seq<Line>, n: nat)
    requires hist <= hist' && 1 <= n <= |hist| + 1
    ensures StartOf(hist', n) == StartOf(hist, n)
  {
    assert hist'[..n - 1] == hist[..n - 1];
  }

  /** The two pieces of a text behind `end` touch no slot of the tape before it that is still shown. */
  lemma Spared(i: nat, end: nat, length: nat)
    requires i <= end && end + length < i + RING_BYTES
    ensures var textAt := Wrapped(Slot(end) + 1);
            var untilEnd := if length <= RING_BYTES - textAt then length else RING_BYTES - textAt;
            !(textAt <= Slot(i) < textAt + untilEnd) && !(Slot(i) < length - untilEnd)
  {
    WrappedSlot(end, 1);
    var textAt := Slot(end + 1);
    var untilEnd := if length <= RING_BYTES - textAt then length else RING_BYTES - textAt;
    var x := Slot(i);
    if textAt <= x < textAt + untilEnd {
      WrappedSlot(end + 1, x - textAt);
      SlotsDiffer(i, end + 1 + (x - textAt));
    } else if x < length - untilEnd {
      WrappedSlot(end + 1, untilEnd + x);
      SlotsDiffer(i, end + 1 + untilEnd + x);
    }
  }
}
