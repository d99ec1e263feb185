/**
 * The histogram record the kernel program keeps per table key: its fixed
 * 128-byte little-endian layout, the decoder, and the log2 bar-chart
 * renderer.
 */
module Hist {
  import opened Bytes
  import opened Results

  /** Number of log2 buckets in a record. */
  const MaxSlot: nat := 27

  /** Latency (8) + Cnt (8) + 27 slots of 4 bytes + 4 bytes of trailing padding. */
  const RecordSize: nat := 128

  /** A decoded record: `Latency` and `Cnt` are uint64, each slot an int32. */
  datatype Hist = Hist(latency: nat, cnt: nat, slots: seq<int>)

  predicate WellFormed(h: Hist) {
    && h.latency < Two64
    && h.cnt < Two64
    && |h.slots| == MaxSlot
    && forall i :: 0 <= i < |h.slots| ==> IsInt32(h.slots[i])
  }

  /** What `binary.Read` reports for a buffer that runs out: nothing at all, or part of the record. */
  datatype DecodeError = EOF | UnexpectedEOF

  // ---------------------------------------------------------------------------
  // Codec
  // ---------------------------------------------------------------------------

  /** The int32 stored in slot i of an encoded record. */
  function SlotAt(data: seq<byte>, i: nat): (r: int)
    requires 20 + 4 * i <= |data|
    ensures IsInt32(r)
  {
    assert Pow256(4) == Two32;
    AsInt32(LeValue(data[16 + 4 * i .. 20 + 4 * i]))
  }

  /**
   * Decodes one record. The buffer must hold at least RecordSize bytes;
   * only the first RecordSize are read, and the padding is skipped.
   */
  function UnmarshalBinary(data: seq<byte>): (r: Result<Hist, DecodeError>)
    ensures r.Ok? <==> |data| >= RecordSize
    ensures |data| == 0 ==> r == Err(EOF)
    ensures 0 < |data| < RecordSize ==> r == Err(UnexpectedEOF)
    ensures r.Ok? ==> WellFormed(r.value)
  {
    if |data| == 0 then Err(EOF)
    else if |data| < RecordSize then Err(UnexpectedEOF)
    else
      assert Pow256(8) == Two64;
      Ok(Hist(LeValue(data[0..8]), LeValue(data[8..16]),
              seq(MaxSlot, i requires 0 <= i < MaxSlot => SlotAt(data, i))))
  }

  /** The slots laid out as consecutive little-endian 32-bit words. */
  function SlotBytes(slots: seq<int>): (s: seq<byte>)
    requires forall i :: 0 <= i < |slots| ==> IsInt32(slots[i])
    ensures |s| == 4 * |slots|
  {
    if slots == [] then [] else LeBytes(AsUint32(slots[0]), 4) + SlotBytes(slots[1..])
  }

  /** The record as the kernel program lays it out in memory (padding zeroed). */
  function Encode(h: Hist): (data: seq<byte>)
    requires WellFormed(h)
    ensures |data| == RecordSize
  {
    LeBytes(h.latency, 8) + LeBytes(h.cnt, 8) + SlotBytes(h.slots) + [0, 0, 0, 0]
  }

  lemma {:induction false} SlotBytesAt(slots: seq<int>, i: nat)
    requires forall k :: 0 <= k < |slots| ==> IsInt32(slots[k])
    requires i < |slots|
    ensures SlotBytes(slots)[4 * i .. 4 * i + 4] == LeBytes(AsUint32(slots[i]), 4)
  {
    if i > 0 {
      var tail := slots[1..];
      SlotBytesAt(tail, i - 1);
      assert SlotBytes(slots) == LeBytes(AsUint32(slots[0]), 4) + SlotBytes(tail);
      assert SlotBytes(slots)[4 * i .. 4 * i + 4] == SlotBytes(tail)[4 * (i - 1) .. 4 * (i - 1) + 4];
    }
  }

  /** Decoding an encoded record gives back its latency, count and every slot. */
  lemma DecodeEncode(h: Hist)
    requires WellFormed(h)
    ensures UnmarshalBinary(Encode(h)) == Ok(h)
  {
    var data := Encode(h);
    var body := SlotBytes(h.slots);
    assert data[0..8] == LeBytes(h.latency, 8);
    assert data[8..16] == LeBytes(h.cnt, 8);
    LeRoundTrip(h.latency, 8);
    LeRoundTrip(h.cnt, 8);
    forall i | 0 <= i < MaxSlot
      ensures SlotAt(data, i) == h.slots[i]
    {
      assert data[16 + 4 * i .. 20 + 4 * i] == body[4 * i .. 4 * i + 4];
      SlotBytesAt(h.slots, i);
      LeRoundTrip(AsUint32(h.slots[i]), 4);
    }
    var r := UnmarshalBinary(data);
    assert r.value.slots == h.slots;
  }

  /** Bytes past the first RecordSize do not affect the record. */
  lemma DecodeReadsPrefix(data: seq<byte>, extra: seq<byte>)
    requires |data| == RecordSize
    ensures UnmarshalBinary(data + extra) == UnmarshalBinary(data)
  {
    var d := data + extra;
    assert d[0..8] == data[0..8];
    assert d[8..16] == data[8..16];
    forall i | 0 <= i < MaxSlot
      ensures SlotAt(d, i) == SlotAt(data, i)
    {
      assert d[16 + 4 * i .. 20 + 4 * i] == data[16 + 4 * i .. 20 + 4 * i];
    }
    assert UnmarshalBinary(d).value.slots == UnmarshalBinary(data).value.slots;
  }

  /** The four padding bytes at the end of the record do not affect it either. */
  lemma DecodeIgnoresPadding(d: seq<byte>, e: seq<byte>)
    requires |d| == RecordSize && |e| == RecordSize
    requires d[..RecordSize - 4] == e[..RecordSize - 4]
    ensures UnmarshalBinary(d) == UnmarshalBinary(e)
  {
    assert d[0..8] == d[..RecordSize - 4][0..8];
    assert e[0..8] == e[..RecordSize - 4][0..8];
    assert d[8..16] == d[..RecordSize - 4][8..16];
    assert e[8..16] == e[..RecordSize - 4][8..16];
    forall i | 0 <= i < MaxSlot
      ensures SlotAt(d, i) == SlotAt(e, i)
    {
      assert d[16 + 4 * i .. 20 + 4 * i] == d[..RecordSize - 4][16 + 4 * i .. 20 + 4 * i];
      assert e[16 + 4 * i .. 20 + 4 * i] == e[..RecordSize - 4][16 + 4 * i .. 20 + 4 * i];
    }
    assert UnmarshalBinary(d).value.slots == UnmarshalBinary(e).value.slots;
  }

  // ---------------------------------------------------------------------------
  // Renderer
  // ---------------------------------------------------------------------------

  /** Width of a full bar. */
  const BarWidth: int := 40

  /** One printed line: the bucket's bounds, its raw count and the bar length. */
  datatype Row = Row(low: nat, high: int, count: int, barLen: int)

  /** What PrintInfo prints: the two header fields, then one row per bucket shown. */
  datatype Report = Report(latency: nat, cnt: nat, rows: seq<Row>)

  /** `maxCount` after the first loop has visited slots[..n]: it starts at 0 and only grows. */
  function MaxPrefix(slots: seq<int>, n: nat): (m: int)
    requires n <= |slots|
  {
    if n == 0 then 0
    else
      var m := MaxPrefix(slots, n - 1);
      if slots[n - 1] > m then slots[n - 1] else m
  }

  /** `lastSlotNonZero` after the first loop has visited slots[..n]. */
  function LastPrefix(slots: seq<int>, n: nat): (last: nat)
    requires n <= |slots|
  {
    if n == 0 then 0
    else if slots[n - 1] > 0 then n - 1
    else LastPrefix(slots, n - 1)
  }

  /** After n steps, maxCount is 0 or one of the counts seen, and no count seen exceeds it. */
  lemma {:induction false} MaxPrefixLaws(slots: seq<int>, n: nat)
    requires n <= |slots|
    ensures MaxPrefix(slots, n) >= 0
    ensures forall i :: 0 <= i < n ==> slots[i] <= MaxPrefix(slots, n)
    ensures MaxPrefix(slots, n) == 0 || exists i :: 0 <= i < n && slots[i] == MaxPrefix(slots, n)
  {
    if n > 0 {
      MaxPrefixLaws(slots, n - 1);
    }
  }

  /** After n steps, lastSlotNonZero is the last index seen with a positive count, or 0. */
  lemma {:induction false} LastPrefixLaws(slots: seq<int>, n: nat)
    requires n <= |slots|
    ensures n > 0 ==> LastPrefix(slots, n) < n
    ensures forall i :: LastPrefix(slots, n) < i < n ==> slots[i] <= 0
    ensures (exists i :: 0 <= i < n && slots[i] > 0) ==> slots[LastPrefix(slots, n)] > 0
    ensures !(exists i :: 0 <= i < n && slots[i] > 0) ==> LastPrefix(slots, n) == 0
  {
    if n > 0 {
      LastPrefixLaws(slots, n - 1);
    }
  }

  /** The scale of the chart: the largest positive count, or 1 when no count is positive. */
  function MaxCount(slots: seq<int>): (m: int)
    ensures m >= 1
    ensures forall i :: 0 <= i < |slots| ==> slots[i] <= m
    ensures (exists i :: 0 <= i < |slots| && slots[i] == m)
            || (m == 1 && forall i :: 0 <= i < |slots| ==> slots[i] <= 0)
  {
    MaxPrefixLaws(slots, |slots|);
    var m := MaxPrefix(slots, |slots|);
    if m == 0 then 1 else m
  }

  /** The largest index whose count is positive, or 0 when there is none. */
  function LastSlotNonZero(slots: seq<int>): (last: nat)
    ensures |slots| > 0 ==> last < |slots|
    ensures forall i :: last < i < |slots| ==> slots[i] <= 0
    ensures (exists i :: 0 <= i < |slots| && slots[i] > 0) ==> slots[last] > 0
    ensures !(exists i :: 0 <= i < |slots| && slots[i] > 0) ==> last == 0
  {
    LastPrefixLaws(slots, |slots|);
    LastPrefix(slots, |slots|)
  }

  /** 2^n, the value of `1 << n`. */
  function Pow2(n: nat): (r: nat)
    ensures r >= 1
  {
    if n == 0 then 1 else 2 * Pow2(n - 1)
  }

  /** Lower bound of bucket i. */
  function Low(i: nat): (low: nat) {
    if i == 0 then 0 else Pow2(i - 1)
  }

  /** Upper bound of bucket i. */
  function High(i: nat): (high: int) {
    Pow2(i) - 1
  }

  /**
   * Bar length for count c on scale m: c / m * 40 truncated toward zero,
   * computed exactly (the program computes it in float64).
   */
  function BarLen(c: int, m: int): (len: int)
    requires m >= 1
  {
    if c >= 0 then (BarWidth * c) / m else -((BarWidth * -c) / m)
  }

  /** The row printed for bucket i. */
  function RowAt(slots: seq<int>, i: nat, maxCount: int): (row: Row)
    requires i < |slots| && maxCount >= 1
  {
    Row(Low(i), High(i), slots[i], BarLen(slots[i], maxCount))
  }

  /** The report PrintInfo produces: rows for buckets 0 .. LastSlotNonZero, in order. */
  function Render(h: Hist): (report: Report)
    requires WellFormed(h)
  {
    var m := MaxCount(h.slots);
    var last := LastSlotNonZero(h.slots);
    Report(h.latency, h.cnt, seq(last + 1, i requires 0 <= i <= last => RowAt(h.slots, i, m)))
  }

  /**
   * `strings.Repeat` panics on a negative length, so every bucket that is
   * printed must get a bar length of at least 0.
   */
  predicate BarsDrawable(h: Hist)
    requires WellFormed(h)
  {
    forall i :: 0 <= i <= LastSlotNonZero(h.slots) ==> BarLen(h.slots[i], MaxCount(h.slots)) >= 0
  }

  /**
   * Scans the slots once for the scale and the last bucket to show, then
   * emits one row per bucket up to that one.
   */
  method PrintInfo(h: Hist) returns (report: Report)
    requires WellFormed(h)
    requires BarsDrawable(h)
    ensures report == Render(h)
  {
    var maxCount := 0;
    var lastSlotNonZero := 0;
    var i := 0;
    while i < MaxSlot
      invariant 0 <= i <= MaxSlot
      invariant maxCount == MaxPrefix(h.slots, i)
      invariant lastSlotNonZero == LastPrefix(h.slots, i)
    {
      var c := h.slots[i];
      if c > maxCount {
        maxCount := c;
      }
      if c > 0 {
        lastSlotNonZero := i;
      }
      i := i + 1;
    }
    if maxCount == 0 {
      maxCount := 1;
    }
    assert maxCount == MaxCount(h.slots);
    assert lastSlotNonZero == LastSlotNonZero(h.slots);

    ghost var expected := Render(h).rows;
    assert |expected| == lastSlotNonZero + 1;
    var rows: seq<Row> := [];
    var low := 0;
    i := 0;
    while i < MaxSlot
      invariant 0 <= i <= lastSlotNonZero + 1
      invariant low == if i == 0 then 0 else Low(i - 1)
      invariant rows == expected[..i]
    {
      if i > lastSlotNonZero {
        break;
      }
      var c := h.slots[i];
      var high := Pow2(i) - 1;
      if i > 0 {
        low := Pow2(i - 1);
      }
      var barLen := BarLen(c, maxCount);
      assert barLen >= 0;
      RenderRowAt(h, i);
      assert expected[..i + 1] == expected[..i] + [Row(low, high, c, barLen)];
      rows := rows + [Row(low, high, c, barLen)];
      i := i + 1;
    }
    assert rows == expected;
    report := Report(h.latency, h.cnt, rows);
  }

  // ---------------------------------------------------------------------------
  // Properties of the report
  // ---------------------------------------------------------------------------

  lemma MulLeft(x: int, y: int, m: int)
    requires x <= y && m >= 0
    ensures m * x <= m * y
  {
    assert m * y - m * x == m * (y - x);
  }

  lemma DivMonotone(a: int, b: int, m: int)
    requires 0 <= a <= b && m >= 1
    ensures a / m <= b / m
  {
    var qa, qb := a / m, b / m;
    var ra, rb := a % m, b % m;
    assert a == m * qa + ra && 0 <= ra < m;
    assert b == m * qb + rb && 0 <= rb < m;
    if qb < qa {
      MulLeft(qb + 1, qa, m);
      assert false;
    }
  }

  lemma DivMultiple(k: int, m: int)
    requires m >= 1
    ensures (m * k) / m == k
  {
    var q, r := (m * k) / m, (m * k) % m;
    assert m * k == m * q + r && 0 <= r < m;
    assert m * (k - q) == r;
    if k - q >= 1 {
      MulLeft(1, k - q, m);
      assert false;
    } else if k - q <= -1 {
      MulLeft(k - q, -1, m);
      assert false;
    }
  }

  /**
   * For counts between 0 and the scale: the bar lies in [0, 40], an empty
   * bucket gets no bar, the fullest bucket gets the whole width, and a
   * larger count never gets a shorter bar.
   */
  lemma BarLenLaws(c1: int, c2: int, m: int)
    requires m >= 1 && 0 <= c1 <= c2 <= m
    ensures 0 <= BarLen(c1, m) <= BarLen(c2, m) <= BarWidth
    ensures BarLen(0, m) == 0
    ensures BarLen(m, m) == BarWidth
  {
    MulLeft(0, c1, BarWidth);
    MulLeft(c1, c2, BarWidth);
    MulLeft(c2, m, BarWidth);
    DivMonotone(BarWidth * c1, BarWidth * c2, m);
    DivMonotone(BarWidth * c2, BarWidth * m, m);
    DivMultiple(BarWidth, m);
  }

  /** Row i of the report shows bucket i: its count and its log2 bounds. */
  lemma RenderRowAt(h: Hist, i: nat)
    requires WellFormed(h)
    requires i < |Render(h).rows|
    ensures Render(h).rows[i] == RowAt(h.slots, i, MaxCount(h.slots))
  {
  }

  /** Rows are the buckets 0 .. LastSlotNonZero in increasing order, with contiguous log2 bounds. */
  lemma RenderRows(h: Hist)
    requires WellFormed(h)
    ensures |Render(h).rows| == LastSlotNonZero(h.slots) + 1 <= MaxSlot
    ensures Render(h).rows[0].low == 0 && Render(h).rows[0].high == 0
    ensures forall i :: 0 <= i < |Render(h).rows| ==>
              Render(h).rows[i].count == h.slots[i] && Render(h).rows[i].low <= Render(h).rows[i].high
    ensures forall i :: 0 < i < |Render(h).rows| ==>
              Render(h).rows[i].low == Pow2(i - 1) && Render(h).rows[i].high == Pow2(i) - 1
    ensures forall i :: 0 < i < |Render(h).rows| ==> Render(h).rows[i].low == Render(h).rows[i - 1].high + 1
    ensures forall i :: |Render(h).rows| <= i < MaxSlot ==> h.slots[i] <= 0
  {
    var rows := Render(h).rows;
    RenderRowAt(h, 0);
    forall i | 0 <= i < |rows|
      ensures rows[i].count == h.slots[i] && rows[i].low == Low(i) && rows[i].high == High(i)
    {
      RenderRowAt(h, i);
    }
    forall i | 0 <= i < |rows|
      ensures rows[i].low <= rows[i].high
      ensures 0 < i ==> rows[i].low == rows[i - 1].high + 1
    {
      Bounds(i);
    }
  }

  /** Bucket i's bounds are ordered, and bucket i starts right after bucket i - 1 ends. */
  lemma Bounds(i: nat)
    ensures Low(i) <= High(i)
    ensures 0 < i ==> Low(i) == High(i - 1) + 1
  {
    if i > 0 {
      assert Pow2(i) == 2 * Pow2(i - 1);
    }
  }

  /** With no negative counts, every bar is in [0, 40], an empty bucket has no bar and the fullest bucket's bar is full. */
  lemma RenderBars(h: Hist)
    requires WellFormed(h)
    requires forall i :: 0 <= i < MaxSlot ==> h.slots[i] >= 0
    ensures BarsDrawable(h)
    ensures forall i :: 0 <= i < |Render(h).rows| ==> 0 <= Render(h).rows[i].barLen <= BarWidth
    ensures forall i :: 0 <= i < |Render(h).rows| && Render(h).rows[i].count == 0 ==> Render(h).rows[i].barLen == 0
    ensures forall i :: 0 <= i < |Render(h).rows| && Render(h).rows[i].count == MaxCount(h.slots) ==>
              Render(h).rows[i].barLen == BarWidth
  {
    var rows := Render(h).rows;
    var m := MaxCount(h.slots);
    forall i | 0 <= i < |rows|
      ensures 0 <= rows[i].barLen <= BarWidth
      ensures rows[i].count == 0 ==> rows[i].barLen == 0
      ensures rows[i].count == m ==> rows[i].barLen == BarWidth
    {
      RenderRowAt(h, i);
      BarLenLaws(rows[i].count, rows[i].count, m);
    }
    forall i | 0 <= i <= LastSlotNonZero(h.slots)
      ensures BarLen(h.slots[i], m) >= 0
    {
      BarLenLaws(h.slots[i], h.slots[i], m);
    }
  }

  /** A non-negative quotient is 0 exactly when the dividend is below the divisor. */
  lemma DivZero(a: int, m: int)
    requires a >= 0 && m >= 1
    ensures a / m == 0 <==> a < m
  {
    if a >= m {
      DivMonotone(m, a, m);
      assert m / m == 1;
    }
  }

  /**
   * The bars can be drawn exactly when no printed bucket holds a count so
   * negative that 40 times its magnitude reaches the scale; a smaller
   * negative count truncates to an empty bar.
   */
  lemma BarsDrawableExactly(h: Hist)
    requires WellFormed(h)
    ensures BarsDrawable(h) <==>
      forall i :: 0 <= i <= LastSlotNonZero(h.slots) ==> -BarWidth * h.slots[i] < MaxCount(h.slots)
  {
    var m := MaxCount(h.slots);
    forall i | 0 <= i <= LastSlotNonZero(h.slots)
      ensures BarLen(h.slots[i], m) >= 0 <==> -BarWidth * h.slots[i] < m
    {
      var c := h.slots[i];
      if c < 0 {
        DivZero(BarWidth * -c, m);
      } else {
        BarLenLaws(c, c, m + c);
        DivZero(0, m);
      }
    }
  }

  /** Within one record with no negative counts, a bucket with a larger count never has a shorter bar. */
  lemma RenderBarsMonotone(h: Hist, i: nat, j: nat)
    requires WellFormed(h)
    requires forall k :: 0 <= k < MaxSlot ==> h.slots[k] >= 0
    requires i < |Render(h).rows| && j < |Render(h).rows|
    requires Render(h).rows[i].count <= Render(h).rows[j].count
    ensures Render(h).rows[i].barLen <= Render(h).rows[j].barLen
  {
    RenderRowAt(h, i);
    RenderRowAt(h, j);
    BarLenLaws(h.slots[i], h.slots[j], MaxCount(h.slots));
  }

  /** A record whose buckets are all zero renders as the single row 0 -> 0 with an empty bar. */
  lemma RenderAllZero(h: Hist)
    requires WellFormed(h)
    requires forall i :: 0 <= i < MaxSlot ==> h.slots[i] == 0
    ensures Render(h).rows == [Row(0, 0, 0, 0)]
  {
    assert LastSlotNonZero(h.slots) == 0;
    assert MaxCount(h.slots) == 1;
  }

  /**
   * A record with counts 3 and 7 in buckets 2 and 3 ends its report with
   * bucket 3, shown as 4 -> 7 with count 7 and a full bar.
   */
  lemma RenderTwoBuckets()
    ensures var h := Hist(500, 10, [0, 0, 3, 7] + seq(23, _ => 0));
      && WellFormed(h)
      && |Render(h).rows| == 4
      && Render(h).rows[3] == Row(4, 7, 7, BarWidth)
      && Render(h).rows[2] == Row(2, 3, 3, 17)
  {
    var h := Hist(500, 10, [0, 0, 3, 7] + seq(23, _ => 0));
    assert h.slots[3] == 7 && h.slots[2] == 3;
    assert forall i :: 3 < i < MaxSlot ==> h.slots[i] == 0;
    assert LastSlotNonZero(h.slots) == 3;
    assert MaxCount(h.slots) == 7;
    assert Pow2(3) == 8 && Pow2(2) == 4;
  }

  /** A zero bucket below the last non-empty one is still printed: counts 5, 0, 3 give three rows. */
  lemma RenderKeepsInnerZeros()
    ensures var h := Hist(0, 0, [5, 0, 3] + seq(24, _ => 0));
      && WellFormed(h)
      && |Render(h).rows| == 3
      && Render(h).rows[1] == Row(1, 1, 0, 0)
  {
    var h := Hist(0, 0, [5, 0, 3] + seq(24, _ => 0));
    assert h.slots[0] == 5 && h.slots[1] == 0 && h.slots[2] == 3;
    assert forall i :: 2 < i < MaxSlot ==> h.slots[i] == 0;
    assert LastSlotNonZero(h.slots) == 2;
    assert MaxCount(h.slots) == 5;
  }
}
