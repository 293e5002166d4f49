/** Reading a span of a recording out of its chunks (crates/vt-ffi/src/session_audio_api.rs:338-430). */
module AudioWindow {
  import opened Prelude
  import opened IntegerMath
  import opened CaptureLedger

  // ----- the read

  /** The frame at a millisecond. */
  function FrameAt(ms: nat, rate: nat): nat {
    ms * rate / 1000
  }

  predicate IsLive(row: Row) {
    row.encrypted && !row.deleted
  }

  function Live(rows: seq<Row>): seq<Row> {
    if rows == [] then []
    else Live(rows[..|rows| - 1]) + if IsLive(rows[|rows| - 1]) then [rows[|rows| - 1]] else []
  }

  /** The order of the chunks: by start, then by chunk id. */
  predicate Precedes(a: Row, b: Row) {
    a.startMs < b.startMs || (a.startMs == b.startMs && a.id <= b.id)
  }

  function InsertSorted(sorted: seq<Row>, row: Row): seq<Row> {
    if sorted == [] || Precedes(sorted[|sorted| - 1], row) then sorted + [row]
    else InsertSorted(sorted[..|sorted| - 1], row) + [sorted[|sorted| - 1]]
  }

  function SortRows(rows: seq<Row>): seq<Row> {
    if rows == [] then [] else InsertSorted(SortRows(rows[..|rows| - 1]), rows[|rows| - 1])
  }

  /** The byte a chunk's frame at a millisecond starts at. */
  function SpanByte(ms: nat, rate: nat, frameBytes: nat): nat {
    FrameAt(ms, rate) * frameBytes
  }

  /** What one chunk contributes to the span [startMs, endMs). */
  function Part(row: Row, startMs: nat, endMs: nat, rate: nat, frameBytes: nat): Bytes {
    if row.endMs <= startMs || row.startMs >= endMs || !row.onDisk then []
    else
      var localStart := SatSub(startMs, row.startMs);
      var localEnd := SatSub(Min(endMs, row.endMs), row.startMs);
      var byteStart := Min(SpanByte(localStart, rate, frameBytes), |row.plain|);
      var byteEnd := Min(SpanByte(localEnd, rate, frameBytes), |row.plain|);
      if byteEnd > byteStart then row.plain[byteStart..byteEnd] else []
  }

  function Parts(rows: seq<Row>, startMs: nat, endMs: nat, rate: nat, frameBytes: nat): Bytes {
    if rows == [] then []
    else Parts(rows[..|rows| - 1], startMs, endMs, rate, frameBytes) + Part(rows[|rows| - 1], startMs, endMs, rate, frameBytes)
  }

  /** `WholeFile`: no chunk had anything, so the span is read from the recording's single file instead. */
  datatype Segment = Segment(pcm: Bytes) | InvalidSpan | WholeFile

  method ReadPart(chunk: Row, startMs: nat, endMs: nat, rate: nat, frameBytes: nat) returns (part: Bytes)
    ensures part == Part(chunk, startMs, endMs, rate, frameBytes)
  {
    if chunk.endMs <= startMs || chunk.startMs >= endMs {
      return [];
    }
    if !chunk.onDisk {
      return [];
    }
    var localStart := SatSub(startMs, chunk.startMs);
    var localEnd := SatSub(Min(endMs, chunk.endMs), chunk.startMs);
    var byteStart := Min(SpanByte(localStart, rate, frameBytes), |chunk.plain|);
    var byteEnd := Min(SpanByte(localEnd, rate, frameBytes), |chunk.plain|);
    part := if byteEnd > byteStart then chunk.plain[byteStart..byteEnd] else [];
  }

  method GetAudioSegment(rows: seq<Row>, startMs: nat, endMs: nat, rate: nat, channels: nat) returns (r: Segment)
    ensures r.InvalidSpan? <==> endMs <= startMs
    ensures endMs > startMs ==>
      var out := Parts(SortRows(Live(rows)), startMs, endMs, rate, BytesPerFrame(Max(channels, 1)));
      r == if out == [] then WholeFile else Segment(out)
  {
    if endMs <= startMs {
      return InvalidSpan;
    }
    var chunks := SortRows(Live(rows));
    var frameBytes := BytesPerFrame(Max(channels, 1));
    var out: Bytes := [];
    for i := 0 to |chunks|
      invariant out == Parts(chunks[..i], startMs, endMs, rate, frameBytes)
    {
      assert chunks[..i + 1][..i] == chunks[..i];
      var part := ReadPart(chunks[i], startMs, endMs, rate, frameBytes);
      out := out + part;
    }
    assert chunks[..|chunks|] == chunks;
    r := if out == [] then WholeFile else Segment(out);
  }

  // ----- which rows count

  lemma {:induction false} LiveAppends(front: seq<Row>, back: seq<Row>)
    ensures Live(front + back) == Live(front) + Live(back)
  {
    if back == [] {
      assert front + back == front;
    } else {
      var last := |back| - 1;
      assert (front + back)[..|front + back| - 1] == front + back[..last];
      LiveAppends(front, back[..last]);
    }
  }

  lemma LiveWithoutDead(front: seq<Row>, row: Row, back: seq<Row>)
    requires row.deleted || !row.encrypted
    ensures Live(front + [row] + back) == Live(front + back)
  {
    LiveAppends(front + [row], back);
    LiveAppends(front, back);
    var more := front + [row];
    assert more[..|more| - 1] == front && more[|more| - 1] == row;
    assert Live(more) == Live(front);
  }

  lemma LiveWithRow(front: seq<Row>, row: Row, back: seq<Row>)
    requires !row.deleted && row.encrypted
    ensures Live(front + [row] + back) == Live(front) + [row] + Live(back) && Live(front + back) == Live(front) + Live(back)
  {
    LiveAppends(front + [row], back);
    LiveAppends(front, back);
    var more := front + [row];
    assert more[..|more| - 1] == front && more[|more| - 1] == row;
    assert Live(more) == Live(front) + [row];
  }

  /** Every other row counts. */
  lemma {:induction false} LiveRowsCount(rows: seq<Row>)
    requires forall row | row in rows :: row.encrypted && !row.deleted
    ensures Live(rows) == rows
  {
    if rows != [] {
      LiveRowsCount(rows[..|rows| - 1]);
    }
  }

  // ----- the order of the rows does not matter

  ghost predicate IsSorted(rows: seq<Row>) {
    forall i, j | 0 <= i < j < |rows| :: Precedes(rows[i], rows[j])
  }

  lemma {:induction false} InsertKeepsItems(sorted: seq<Row>, row: Row)
    ensures multiset(InsertSorted(sorted, row)) == multiset(sorted) + multiset{row}
  {
    if sorted != [] && !Precedes(sorted[|sorted| - 1], row) {
      var front, last := sorted[..|sorted| - 1], sorted[|sorted| - 1];
      assert sorted == front + [last];
      InsertKeepsItems(front, row);
    }
  }

  lemma {:induction false} InsertKeepsRows(sorted: seq<Row>, row: Row)
    requires IsSorted(sorted)
    ensures IsSorted(InsertSorted(sorted, row)) && multiset(InsertSorted(sorted, row)) == multiset(sorted) + multiset{row}
  {
    InsertKeepsItems(sorted, row);
    if sorted != [] {
      var front, last := sorted[..|sorted| - 1], sorted[|sorted| - 1];
      if Precedes(last, row) {
        assert forall i | 0 <= i < |sorted| :: i < |sorted| - 1 ==> Precedes(sorted[i], last);
      } else {
        InsertKeepsRows(front, row);
        InsertStaysBelow(front, row, last);
      }
    }
  }

  lemma InsertStaysBelow(front: seq<Row>, row: Row, last: Row)
    requires IsSorted(front + [last]) && !Precedes(last, row)
    ensures forall i | 0 <= i < |InsertSorted(front, row)| :: Precedes(InsertSorted(front, row)[i], last)
  {
    var inserted := InsertSorted(front, row);
    InsertKeepsItems(front, row);
    forall i | 0 <= i < |inserted|
      ensures Precedes(inserted[i], last)
    {
      assert inserted[i] in multiset(front) + multiset{row};
      if inserted[i] in front {
        var j :| 0 <= j < |front| && front[j] == inserted[i];
        assert Precedes((front + [last])[j], (front + [last])[|front|]);
      }
    }
  }

  lemma {:induction false} SortKeepsRows(rows: seq<Row>)
    ensures IsSorted(SortRows(rows)) && multiset(SortRows(rows)) == multiset(rows)
  {
    if rows != [] {
      SortKeepsRows(rows[..|rows| - 1]);
      InsertKeepsRows(SortRows(rows[..|rows| - 1]), rows[|rows| - 1]);
      assert rows == rows[..|rows| - 1] + [rows[|rows| - 1]];
    }
  }

  lemma {:induction false} InsertPlaces(sorted: seq<Row>, row: Row) returns (a: seq<Row>, b: seq<Row>)
    ensures InsertSorted(sorted, row) == a + [row] + b && sorted == a + b
  {
    if sorted == [] || Precedes(sorted[|sorted| - 1], row) {
      a, b := sorted, [];
    } else {
      var last := |sorted| - 1;
      a, b := InsertPlaces(sorted[..last], row);
      b := b + [sorted[last]];
    }
  }

  lemma InsertAtEnd(sorted: seq<Row>, last: Row, row: Row)
    ensures InsertSorted(sorted + [last], row) == if Precedes(last, row) then sorted + [last] + [row] else InsertSorted(sorted, row) + [last]
  {
    assert (sorted + [last])[..|sorted|] == sorted;
  }

  lemma StaysSorted(front: seq<Row>, last: Row)
    requires IsSorted(front + [last])
    ensures IsSorted(front)
  {
    forall i, j | 0 <= i < j < |front|
      ensures Precedes(front[i], front[j])
    {
      assert Precedes((front + [last])[i], (front + [last])[j]);
    }
  }

  lemma InsertLast(a: seq<Row>, row: Row, other: Row) returns (a': seq<Row>, b': seq<Row>)
    requires IsSorted(a + [row])
    ensures InsertSorted(a + [row], other) == a' + [row] + b' && InsertSorted(a, other) == a' + b'
  {
    InsertAtEnd(a, row, other);
    if Precedes(row, other) {
      assert a != [] ==> Precedes((a + [row])[|a| - 1], (a + [row])[|a|]);
      a', b' := a, [other];
    } else {
      a', b' := InsertSorted(a, other), [];
      assert a' + [row] + [] == a' + [row] && a' + [] == a';
    }
  }

  lemma LastOfBoth(a: seq<Row>, row: Row, b: seq<Row>, last: Row)
    ensures a + [row] + (b + [last]) == a + [row] + b + [last] && a + (b + [last]) == a + b + [last]
  {
  }

  lemma {:induction false} InsertBeside(a: seq<Row>, row: Row, b: seq<Row>, other: Row) returns (a': seq<Row>, b': seq<Row>)
    requires IsSorted(a + [row] + b)
    ensures InsertSorted(a + [row] + b, other) == a' + [row] + b' && InsertSorted(a + b, other) == a' + b'
    decreases |b|
  {
    if b == [] {
      assert a + [row] + [] == a + [row] && a + [] == a;
      a', b' := InsertLast(a, row, other);
    } else {
      var before, last := b[..|b| - 1], b[|b| - 1];
      assert b == before + [last];
      LastOfBoth(a, row, before, last);
      InsertAtEnd(a + [row] + before, last, other);
      InsertAtEnd(a + before, last, other);
      if Precedes(last, other) {
        a', b' := a, b + [other];
        LastOfBoth(a, row, b, other);
      } else {
        StaysSorted(a + [row] + before, last);
        var c, d := InsertBeside(a, row, before, other);
        LastOfBoth(c, row, d, last);
        a', b' := c, d + [last];
      }
    }
  }

  lemma SortOneMore(rows: seq<Row>, row: Row)
    ensures SortRows(rows + [row]) == InsertSorted(SortRows(rows), row)
  {
    assert (rows + [row])[..|rows|] == rows;
  }

  /** Sorting with one more row is sorting without it and putting it in. */
  lemma {:induction false} SortBeside(front: seq<Row>, row: Row, back: seq<Row>) returns (a: seq<Row>, b: seq<Row>)
    ensures SortRows(front + [row] + back) == a + [row] + b && SortRows(front + back) == a + b
  {
    if back == [] {
      assert front + [row] + [] == front + [row] && front + [] == front;
      SortOneMore(front, row);
      a, b := InsertPlaces(SortRows(front), row);
    } else {
      var before, last := back[..|back| - 1], back[|back| - 1];
      assert front + [row] + back == (front + [row] + before) + [last] && front + back == (front + before) + [last];
      a, b := SortBeside(front, row, before);
      SortKeepsRows(front + [row] + before);
      SortOneMore(front + [row] + before, last);
      SortOneMore(front + before, last);
      a, b := InsertBeside(a, row, b, last);
    }
  }

  lemma PartsOneMore(rows: seq<Row>, row: Row, startMs: nat, endMs: nat, rate: nat, frameBytes: nat)
    ensures Parts(rows + [row], startMs, endMs, rate, frameBytes) ==
      Parts(rows, startMs, endMs, rate, frameBytes) + Part(row, startMs, endMs, rate, frameBytes)
  {
    assert (rows + [row])[..|rows|] == rows;
  }

  lemma {:induction false} PartsBeside(a: seq<Row>, row: Row, b: seq<Row>, startMs: nat, endMs: nat, rate: nat, frameBytes: nat)
    requires Part(row, startMs, endMs, rate, frameBytes) == []
    ensures Parts(a + [row] + b, startMs, endMs, rate, frameBytes) == Parts(a + b, startMs, endMs, rate, frameBytes)
  {
    if b == [] {
      assert a + [row] + [] == a + [row] && a + [] == a;
      PartsOneMore(a, row, startMs, endMs, rate, frameBytes);
    } else {
      var before, last := b[..|b| - 1], b[|b| - 1];
      assert a + [row] + b == (a + [row] + before) + [last] && a + b == (a + before) + [last];
      PartsBeside(a, row, before, startMs, endMs, rate, frameBytes);
      PartsOneMore(a + [row] + before, last, startMs, endMs, rate, frameBytes);
      PartsOneMore(a + before, last, startMs, endMs, rate, frameBytes);
    }
  }

  /** A row that is deleted, was never encrypted, has lost its file or does not overlap the span changes nothing of what the
      span reads, wherever it stands. */
  lemma DeadRowsAreSilent(front: seq<Row>, row: Row, back: seq<Row>, startMs: nat, endMs: nat, rate: nat, frameBytes: nat)
    requires row.deleted || !row.encrypted || !row.onDisk || row.endMs <= startMs || endMs <= row.startMs
    ensures Parts(SortRows(Live(front + [row] + back)), startMs, endMs, rate, frameBytes)
         == Parts(SortRows(Live(front + back)), startMs, endMs, rate, frameBytes)
  {
    if row.deleted || !row.encrypted {
      LiveWithoutDead(front, row, back);
    } else {
      LiveWithRow(front, row, back);
      var a, b := SortBeside(Live(front), row, Live(back));
      PartsBeside(a, row, b, startMs, endMs, rate, frameBytes);
    }
  }

  lemma FrontRows(a: seq<Row>, b: seq<Row>)
    requires |a| > 0 && |b| > 0 && a[|a| - 1] == b[|b| - 1] && multiset(a) == multiset(b)
    ensures multiset(a[..|a| - 1]) == multiset(b[..|b| - 1])
  {
    assert a == a[..|a| - 1] + [a[|a| - 1]] && b == b[..|b| - 1] + [b[|b| - 1]];
    assert multiset(a[..|a| - 1]) == multiset(a) - multiset{a[|a| - 1]};
  }

  /** Rows that start at different times have one sorted order. */
  lemma {:induction false} SortedOrderIsUnique(a: seq<Row>, b: seq<Row>)
    requires IsSorted(a) && multiset(a) == multiset(b)
    requires forall i, j | 0 <= i < j < |b| :: b[i].startMs < b[j].startMs
    ensures a == b
    decreases |b|
  {
    assert |a| == |multiset(a)| && |b| == |multiset(b)|;
    if b != [] {
      var n := |b| - 1;
      LastIsLatest(a, b);
      FrontRows(a, b);
      SortedOrderIsUnique(a[..n], b[..n]);
      assert a == a[..n] + [a[n]] && b == b[..n] + [b[n]];
    }
  }

  lemma LastIsLatest(a: seq<Row>, b: seq<Row>)
    requires |a| == |b| > 0 && IsSorted(a) && multiset(a) == multiset(b)
    requires forall i, j | 0 <= i < j < |b| :: b[i].startMs < b[j].startMs
    ensures a[|a| - 1] == b[|b| - 1]
  {
    var n := |b| - 1;
    assert a[n] in multiset(b) && b[n] in multiset(a);
    var i :| 0 <= i <= n && b[i] == a[n];
    var j :| 0 <= j <= n && a[j] == b[n];
    if j < n {
      assert Precedes(a[j], a[n]);
    }
  }

  // ----- one slice of the whole recording

  function Clamp(x: nat, low: nat, high: nat): nat
    requires low <= high
  {
    if x < low then low else if x > high then high else x
  }

  /** Cutting a slice window by window and joining the parts gives the slice. */
  lemma SliceByWindow(pcm: Bytes, x: nat, y: nat, low: nat, high: nat)
    requires low <= high <= |pcm| && x <= y
    ensures Clamp(x, 0, low) <= Clamp(y, 0, low) && Clamp(x, low, high) <= Clamp(y, low, high) && Clamp(x, 0, high) <= Clamp(y, 0, high)
    ensures pcm[Clamp(x, 0, low)..Clamp(y, 0, low)] + pcm[Clamp(x, low, high)..Clamp(y, low, high)] == pcm[Clamp(x, 0, high)..Clamp(y, 0, high)]
  {
  }

  // ----- the chunks of a recovered recording

  /** Sixty seconds are a whole number of frames, so a frame counted from a window's start is the frame
      counted from the start of the recording. */
  lemma FrameFromWindow(ms: nat, index: nat, rate: nat)
    requires ms >= 60_000 * index
    ensures FrameAt(ms, rate) == FrameAt(ms - 60_000 * index, rate) + index * (60 * rate)
  {
    var k := index * (60 * rate);
    assert ms * rate == (ms - 60_000 * index) * rate + k * 1000;
    QuotientOfSum((ms - 60_000 * index) * rate, k, 1000);
  }

  lemma FrameBeforeWindow(ms: nat, index: nat, rate: nat)
    requires ms < 60_000 * index && rate > 0
    ensures FrameAt(ms, rate) < index * (60 * rate)
  {
    assert ms * rate < 60_000 * index * rate;
    assert 60_000 * index * rate == index * (60 * rate) * 1000;
    QuotientBelow(ms * rate, index * (60 * rate), 1000);
  }

  lemma FrameOrder(a: nat, b: nat, rate: nat)
    requires a <= b
    ensures FrameAt(a, rate) <= FrameAt(b, rate)
  {
    ProductOrder(a, b, rate);
    QuotientOrder(a * rate, b * rate, 1000);
  }

  /** Where the last window of the recovered ledger ends. */
  function LastEnd(captured: nat, rate: nat): nat {
    var n := ChunkCount(captured, rate);
    var w := WindowAt(captured, rate, if n > 0 then n - 1 else 0);
    Max(w.endMs, w.startMs + 1)
  }

  /** The rows' window in milliseconds and frames. */
  lemma RowWindow(captured: nat, rate: nat, index: nat)
    requires 0 < captured && captured * 1000 <= U64_MAX && 0 < rate && IsU32(rate) && index < ChunkCount(captured, rate)
    ensures var (w, last) := (WindowAt(captured, rate, index), LastEnd(captured, rate));
      && w.startMs == 60_000 * index && StartFrame(rate, index) == index * (60 * rate) < EndFrame(captured, rate, index)
      && (index + 1 < ChunkCount(captured, rate) ==>
            w.endMs == 60_000 * (index + 1) < last && EndFrame(captured, rate, index) == (index + 1) * (60 * rate))
      && (index + 1 == ChunkCount(captured, rate) ==> Max(w.endMs, w.startMs + 1) == last)
  {
    WindowsEveryMinute(captured, rate, index);
    WindowsTileFrames(captured, rate, index);
    CountBounds(captured, rate, index);
    if index + 1 < ChunkCount(captured, rate) {
      CountBounds(captured, rate, index + 1);
      WindowsEveryMinute(captured, rate, ChunkCount(captured, rate) - 1);
    }
  }

  /** Inside a window, the span's first and last frame are those of the whole span, held to the window. */
  lemma SpanInWindow(index: nat, rate: nat, high: nat, rowEnd: nat, startMs: nat, endMs: nat, lastEnd: nat)
    requires 0 < rate && startMs < endMs && startMs < lastEnd && 60_000 * index < rowEnd
    requires index * (60 * rate) < high
    requires rowEnd == lastEnd || (rowEnd == 60_000 * (index + 1) < lastEnd && high == (index + 1) * (60 * rate))
    requires rowEnd > startMs && 60_000 * index < endMs
    ensures var (low, rowStart, stop) := (index * (60 * rate), 60_000 * index, Min(endMs, lastEnd));
      && low + Min(FrameAt(SatSub(startMs, rowStart), rate), high - low) == Clamp(FrameAt(startMs, rate), low, high)
      && low + Min(FrameAt(SatSub(Min(endMs, rowEnd), rowStart), rate), high - low) == Clamp(FrameAt(stop, rate), low, high)
  {
    var m, stop := Min(endMs, rowEnd), Min(endMs, lastEnd);
    FrameFromWindow(m, index, rate);
    if startMs >= 60_000 * index {
      FrameFromWindow(startMs, index, rate);
    } else {
      FrameBeforeWindow(startMs, index, rate);
    }
    if m != stop {
      FrameFromWindow(m, index + 1, rate);
      FrameFromWindow(stop, index + 1, rate);
    }
  }

  /** A window the span misses holds none of its frames. */
  lemma SpanMissesWindow(index: nat, rate: nat, high: nat, rowEnd: nat, startMs: nat, endMs: nat, lastEnd: nat)
    requires 0 < rate && startMs < endMs && startMs < lastEnd && 60_000 * index < rowEnd
    requires index * (60 * rate) < high
    requires rowEnd == lastEnd || (rowEnd == 60_000 * (index + 1) < lastEnd && high == (index + 1) * (60 * rate))
    requires rowEnd <= startMs || 60_000 * index >= endMs
    ensures var (low, stop) := (index * (60 * rate), Min(endMs, lastEnd));
      Clamp(FrameAt(startMs, rate), low, high) == Clamp(FrameAt(stop, rate), low, high)
  {
    var stop := Min(endMs, lastEnd);
    FrameOrder(startMs, stop, rate);
    if 60_000 * index >= endMs {
      FrameBeforeOrAt(stop, index, rate);
    } else {
      FrameFromWindow(startMs, index + 1, rate);
    }
  }

  lemma FrameBeforeOrAt(ms: nat, index: nat, rate: nat)
    requires ms <= 60_000 * index && rate > 0
    ensures FrameAt(ms, rate) <= index * (60 * rate)
  {
    if ms == 60_000 * index {
      FrameFromWindow(ms, index, rate);
    } else {
      FrameBeforeWindow(ms, index, rate);
    }
  }

  lemma MinScales(a: nat, c: nat, b: nat)
    ensures Min(a * b, c * b) == Min(a, c) * b
  {
    if a < c {
      ProductOrder(a, c, b);
    } else {
      ProductOrder(c, a, b);
    }
  }

  lemma ClampScales(f: nat, low: nat, high: nat, b: nat)
    requires low <= high
    ensures low * b <= high * b && Clamp(f * b, low * b, high * b) == Clamp(f, low, high) * b
  {
    ProductOrder(low, high, b);
    if f < low {
      ProductOrder(f, low, b);
    } else {
      ProductOrder(low, f, b);
    }
    if f > high {
      ProductOrder(high, f, b);
    } else {
      ProductOrder(f, high, b);
    }
  }

  /** A frame held to a window, counted in bytes from the window's start. */
  lemma ByteInWindow(f: nat, frame: nat, low: nat, high: nat, b: nat)
    requires low <= high && low + Min(f, high - low) == Clamp(frame, low, high)
    ensures low * b <= high * b
    ensures low * b + Min(f * b, high * b - low * b) == Clamp(frame * b, low * b, high * b)
  {
    ClampScales(frame, low, high, b);
    ProductDifference(low, high, b);
    MinScales(f, high - low, b);
    assert (low + Min(f, high - low)) * b == low * b + Min(f, high - low) * b;
  }

  lemma ClampOrder(first: nat, last: nat, low: nat, high: nat, b: nat)
    requires low <= high && first <= last
    ensures low * b <= Clamp(first * b, low * b, high * b) <= Clamp(last * b, low * b, high * b) <= high * b
    ensures Clamp(first, low, high) == Clamp(last, low, high) ==> Clamp(first * b, low * b, high * b) == Clamp(last * b, low * b, high * b)
  {
    ClampScales(first, low, high, b);
    ClampScales(last, low, high, b);
    ProductOrder(first, last, b);
  }

  lemma SliceOfSlice(pcm: Bytes, low: nat, high: nat, i: nat, j: nat)
    requires low <= high <= |pcm| && i <= j <= high - low
    ensures pcm[low..high][i..j] == pcm[low + i..low + j]
  {
    var inner, outer := pcm[low..high][i..j], pcm[low + i..low + j];
    assert |inner| == |outer|;
    forall k | 0 <= k < |inner|
      ensures inner[k] == outer[k]
    {
      assert inner[k] == pcm[low..high][i + k] == pcm[low + i + k];
    }
  }

  /** The row overlaps the span. */
  predicate Meets(row: Row, startMs: nat, endMs: nat) {
    !(row.endMs <= startMs || row.startMs >= endMs)
  }

  /** The row's plaintext is the stretch of the recording between two byte positions, and the span's first and last byte
      fall in it where the code looks for them. */
  predicate IsStretch(row: Row, pcm: Bytes, low: nat, high: nat, first: nat, last: nat, startMs: nat, endMs: nat, rate: nat, b: nat) {
    && low <= high <= |pcm| && row.plain == pcm[low..high] && row.onDisk
    && low <= Clamp(first, low, high) <= Clamp(last, low, high) <= high
    && (!Meets(row, startMs, endMs) ==> Clamp(first, low, high) == Clamp(last, low, high))
    && (Meets(row, startMs, endMs) ==> (
          && low + Min(SpanByte(SatSub(startMs, row.startMs), rate, b), high - low) == Clamp(first, low, high)
          && low + Min(SpanByte(SatSub(Min(endMs, row.endMs), row.startMs), rate, b), high - low) == Clamp(last, low, high)))
  }

  /** One chunk's part. */
  lemma PartIsSlice(row: Row, pcm: Bytes, low: nat, high: nat, first: nat, last: nat, startMs: nat, endMs: nat, rate: nat, b: nat)
    requires IsStretch(row, pcm, low, high, first, last, startMs, endMs, rate, b)
    ensures Part(row, startMs, endMs, rate, b) == pcm[Clamp(first, low, high)..Clamp(last, low, high)]
  {
    if Meets(row, startMs, endMs) {
      SliceOfSlice(pcm, low, high, Clamp(first, low, high) - low, Clamp(last, low, high) - low);
    }
  }

  /** The row holds the recording's frames [index windows, high). */
  ghost predicate IsWindowRow(row: Row, pcm: Bytes, index: nat, rate: nat, high: nat, lastEnd: nat, b: nat) {
    var low := index * (60 * rate);
    && low < high && low * b <= high * b <= |pcm| && row.plain == pcm[low * b..high * b] && row.onDisk
    && row.startMs == 60_000 * index < row.endMs
    && (row.endMs == lastEnd || (row.endMs == 60_000 * (index + 1) < lastEnd && high == (index + 1) * (60 * rate)))
  }

  lemma WindowRowStretch(row: Row, pcm: Bytes, index: nat, rate: nat, high: nat, lastEnd: nat, b: nat, startMs: nat, endMs: nat)
    requires IsWindowRow(row, pcm, index, rate, high, lastEnd, b) && 0 < rate && startMs < endMs && startMs < lastEnd
    ensures FrameAt(startMs, rate) * b <= FrameAt(Min(endMs, lastEnd), rate) * b
    ensures IsStretch(row, pcm, index * (60 * rate) * b, high * b, FrameAt(startMs, rate) * b, FrameAt(Min(endMs, lastEnd), rate) * b,
                      startMs, endMs, rate, b)
  {
    var low, x, y := index * (60 * rate), FrameAt(startMs, rate), FrameAt(Min(endMs, lastEnd), rate);
    FrameOrder(startMs, Min(endMs, lastEnd), rate);
    ProductOrder(x, y, b);
    ClampOrder(x, y, low, high, b);
    if Meets(row, startMs, endMs) {
      SpanInWindow(index, rate, high, row.endMs, startMs, endMs, lastEnd);
      ByteInWindow(FrameAt(SatSub(startMs, row.startMs), rate), x, low, high, b);
      ByteInWindow(FrameAt(SatSub(Min(endMs, row.endMs), row.startMs), rate), y, low, high, b);
    } else {
      SpanMissesWindow(index, rate, high, row.endMs, startMs, endMs, lastEnd);
    }
  }

  lemma WindowRowPart(row: Row, pcm: Bytes, index: nat, rate: nat, high: nat, lastEnd: nat, b: nat, startMs: nat, endMs: nat)
    requires IsWindowRow(row, pcm, index, rate, high, lastEnd, b) && 0 < rate && startMs < endMs && startMs < lastEnd
    ensures var (low, x, y) := (index * (60 * rate) * b, SpanByte(startMs, rate, b), SpanByte(Min(endMs, lastEnd), rate, b));
      && x <= y && low <= high * b <= |pcm| && Clamp(x, low, high * b) <= Clamp(y, low, high * b)
      && Part(row, startMs, endMs, rate, b) == pcm[Clamp(x, low, high * b)..Clamp(y, low, high * b)]
  {
    WindowRowStretch(row, pcm, index, rate, high, lastEnd, b, startMs, endMs);
    PartIsSlice(row, pcm, index * (60 * rate) * b, high * b, FrameAt(startMs, rate) * b, FrameAt(Min(endMs, lastEnd), rate) * b,
                startMs, endMs, rate, b);
  }

  lemma LedgerRow(pcm: Bytes, captured: nat, rate: nat, channels: nat, index: nat)
    requires 0 < captured && captured * 1000 <= U64_MAX && 0 < rate && IsU32(rate)
    requires |pcm| == captured * BytesPerFrame(channels) && index < ChunkCount(captured, rate)
    ensures var (cuts, b, high) := (Cuts(captured, rate, channels), BytesPerFrame(channels), EndFrame(captured, rate, index));
      && cuts[index] == index * (60 * rate) * b && cuts[index + 1] == high * b
      && IsWindowRow(LedgerOf(pcm, captured, rate, channels)[index], pcm, index, rate, high, LastEnd(captured, rate), b)
  {
    CutsAreCuts(captured, rate, channels);
    RowWindow(captured, rate, index);
    BoundaryStep(captured, rate, index);
    assert Cuts(captured, rate, channels)[index] == Boundary(captured, rate, index) * BytesPerFrame(channels);
  }

  /** The row contributes its stretch of the slice [x, y). */
  ghost predicate PartFits(row: Row, pcm: Bytes, low: nat, high: nat, x: nat, y: nat, startMs: nat, endMs: nat, rate: nat, b: nat) {
    && low <= high <= |pcm| && Clamp(x, low, high) <= Clamp(y, low, high)
    && Part(row, startMs, endMs, rate, b) == pcm[Clamp(x, low, high)..Clamp(y, low, high)]
  }

  lemma {:induction false} PartsAreSlice(rows: seq<Row>, cuts: seq<nat>, pcm: Bytes, x: nat, y: nat, n: nat, startMs: nat, endMs: nat, rate: nat, b: nat)
    requires |cuts| == |rows| + 1 && AreCuts(cuts, |pcm|) && x <= y && n <= |rows|
    requires forall i: nat | i < |rows| :: PartFits(rows[i], pcm, cuts[i], cuts[i + 1], x, y, startMs, endMs, rate, b)
    ensures cuts[n] <= |pcm| && Clamp(x, 0, cuts[n]) <= Clamp(y, 0, cuts[n])
    ensures Parts(rows[..n], startMs, endMs, rate, b) == pcm[Clamp(x, 0, cuts[n])..Clamp(y, 0, cuts[n])]
  {
    if n > 0 {
      PartsAreSlice(rows, cuts, pcm, x, y, n - 1, startMs, endMs, rate, b);
      assert PartFits(rows[n - 1], pcm, cuts[n - 1], cuts[n], x, y, startMs, endMs, rate, b);
      SliceByWindow(pcm, x, y, cuts[n - 1], cuts[n]);
      assert rows[..n][..n - 1] == rows[..n - 1];
    }
  }

  lemma LedgerPart(pcm: Bytes, captured: nat, rate: nat, channels: nat, index: nat, startMs: nat, endMs: nat)
    requires 0 < captured && captured * 1000 <= U64_MAX && 0 < rate && IsU32(rate)
    requires |pcm| == captured * BytesPerFrame(channels) && index < ChunkCount(captured, rate)
    requires startMs < endMs && startMs < LastEnd(captured, rate)
    ensures var (cuts, b) := (Cuts(captured, rate, channels), BytesPerFrame(channels));
      PartFits(LedgerOf(pcm, captured, rate, channels)[index], pcm, cuts[index], cuts[index + 1], SpanByte(startMs, rate, b),
               SpanByte(Min(endMs, LastEnd(captured, rate)), rate, b), startMs, endMs, rate, b)
  {
    LedgerRow(pcm, captured, rate, channels, index);
    WindowRowPart(LedgerOf(pcm, captured, rate, channels)[index], pcm, index, rate, EndFrame(captured, rate, index),
                  LastEnd(captured, rate), BytesPerFrame(channels), startMs, endMs);
  }

  lemma LedgerPartsFit(pcm: Bytes, captured: nat, rate: nat, channels: nat, x: nat, y: nat, startMs: nat, endMs: nat)
    requires 0 < captured && captured * 1000 <= U64_MAX && 0 < rate && IsU32(rate)
    requires |pcm| == captured * BytesPerFrame(channels)
    requires startMs < endMs && startMs < LastEnd(captured, rate)
    requires x == SpanByte(startMs, rate, BytesPerFrame(channels))
    requires y == SpanByte(Min(endMs, LastEnd(captured, rate)), rate, BytesPerFrame(channels))
    ensures forall i: nat | i < ChunkCount(captured, rate) ::
      PartFits(LedgerOf(pcm, captured, rate, channels)[i], pcm, Cuts(captured, rate, channels)[i], Cuts(captured, rate, channels)[i + 1],
               x, y, startMs, endMs, rate, BytesPerFrame(channels))
  {
    forall i: nat | i < ChunkCount(captured, rate)
      ensures PartFits(LedgerOf(pcm, captured, rate, channels)[i], pcm, Cuts(captured, rate, channels)[i], Cuts(captured, rate, channels)[i + 1],
                       x, y, startMs, endMs, rate, BytesPerFrame(channels))
    {
      LedgerPart(pcm, captured, rate, channels, i, startMs, endMs);
    }
  }

  lemma SpanOrder(startMs: nat, stop: nat, rate: nat, b: nat)
    requires startMs <= stop
    ensures SpanByte(startMs, rate, b) <= SpanByte(stop, rate, b)
  {
    FrameOrder(startMs, stop, rate);
    ProductOrder(FrameAt(startMs, rate), FrameAt(stop, rate), b);
  }

  /** The bytes of the whole recording from one position to another, as far as there are any. */
  function Slice(pcm: Bytes, x: nat, y: nat): Bytes
    requires x <= y
  {
    pcm[Min(x, |pcm|)..Min(y, |pcm|)]
  }

  lemma AllPartsAreSlice(rows: seq<Row>, cuts: seq<nat>, pcm: Bytes, x: nat, y: nat, startMs: nat, endMs: nat, rate: nat, b: nat)
    requires |cuts| == |rows| + 1 && AreCuts(cuts, |pcm|) && x <= y
    requires forall i: nat | i < |rows| :: PartFits(rows[i], pcm, cuts[i], cuts[i + 1], x, y, startMs, endMs, rate, b)
    ensures Parts(rows, startMs, endMs, rate, b) == Slice(pcm, x, y)
  {
    PartsAreSlice(rows, cuts, pcm, x, y, |rows|, startMs, endMs, rate, b);
    assert rows[..|rows|] == rows;
  }

  /** The span cut out of the whole recording: from its first frame to its last, held to what was recorded. */
  function WholeSlice(pcm: Bytes, captured: nat, rate: nat, frameBytes: nat, startMs: nat, endMs: nat): Bytes
    requires startMs < endMs && startMs < LastEnd(captured, rate)
  {
    SpanOrder(startMs, Min(endMs, LastEnd(captured, rate)), rate, frameBytes);
    Slice(pcm, SpanByte(startMs, rate, frameBytes), SpanByte(Min(endMs, LastEnd(captured, rate)), rate, frameBytes))
  }

  /** Joined in order, the chunks of a recovered recording give one slice of the whole recording. */
  lemma RecoveredParts(pcm: Bytes, captured: nat, rate: nat, channels: nat, startMs: nat, endMs: nat)
    requires 0 < captured && captured * 1000 <= U64_MAX && 0 < rate && IsU32(rate)
    requires |pcm| == captured * BytesPerFrame(channels)
    requires startMs < endMs && startMs < LastEnd(captured, rate)
    ensures Parts(LedgerOf(pcm, captured, rate, channels), startMs, endMs, rate, BytesPerFrame(channels))
      == WholeSlice(pcm, captured, rate, BytesPerFrame(channels), startMs, endMs)
  {
    var b, stop := BytesPerFrame(channels), Min(endMs, LastEnd(captured, rate));
    var x, y := SpanByte(startMs, rate, b), SpanByte(stop, rate, b);
    CutsAreCuts(captured, rate, channels);
    SpanOrder(startMs, stop, rate, b);
    LedgerPartsFit(pcm, captured, rate, channels, x, y, startMs, endMs);
    AllPartsAreSlice(LedgerOf(pcm, captured, rate, channels), Cuts(captured, rate, channels), pcm, x, y, startMs, endMs, rate, b);
  }

  // ----- whatever order the rows come in

  /** The live rows are those of a recovered recording, in any order, between any dead rows. */
  ghost predicate HoldsRecording(rows: seq<Row>, pcm: Bytes, captured: nat, rate: nat, channels: nat)
    requires 0 < captured && captured * 1000 <= U64_MAX && 0 < rate && IsU32(rate)
    requires |pcm| == captured * BytesPerFrame(channels)
  {
    multiset(Live(rows)) == multiset(LedgerOf(pcm, captured, rate, channels))
  }

  lemma LedgerStart(pcm: Bytes, captured: nat, rate: nat, channels: nat, i: nat)
    requires 0 < captured && captured * 1000 <= U64_MAX && 0 < rate && IsU32(rate)
    requires |pcm| == captured * BytesPerFrame(channels) && i < ChunkCount(captured, rate)
    ensures LedgerOf(pcm, captured, rate, channels)[i].startMs == 60_000 * i
  {
    CutsAreCuts(captured, rate, channels);
    RowWindow(captured, rate, i);
  }

  /** Sorting puts them back in the order they were recorded. */
  lemma SortRestoresLedger(rows: seq<Row>, ledger: seq<Row>, pcm: Bytes, captured: nat, rate: nat, channels: nat)
    requires 0 < captured && captured * 1000 <= U64_MAX && 0 < rate && IsU32(rate)
    requires |pcm| == captured * BytesPerFrame(channels) && HoldsRecording(rows, pcm, captured, rate, channels)
    requires ledger == LedgerOf(pcm, captured, rate, channels)
    ensures SortRows(Live(rows)) == ledger
  {
    SortKeepsRows(Live(rows));
    forall i: nat | i < |ledger|
      ensures ledger[i].startMs == 60_000 * i
    {
      LedgerStart(pcm, captured, rate, channels, i);
    }
    SortedOrderIsUnique(SortRows(Live(rows)), ledger);
  }

  /** The read of [startMs, endMs) gives the recording's bytes from frame startMs * rate / 1000 to frame
      min(endMs, last end) * rate / 1000, as far as there are any; with none it turns to the single file. */
  method ReadRecording(rows: seq<Row>, startMs: nat, endMs: nat, rate: nat, channels: nat, ghost pcm: Bytes, ghost captured: nat)
      returns (r: Segment)
    requires 0 < captured && captured * 1000 <= U64_MAX && 0 < rate && IsU32(rate) && 0 < channels
    requires |pcm| == captured * BytesPerFrame(channels) && HoldsRecording(rows, pcm, captured, rate, channels)
    ensures r.InvalidSpan? <==> endMs <= startMs
    ensures startMs < endMs && startMs < LastEnd(captured, rate) ==>
      var slice := WholeSlice(pcm, captured, rate, BytesPerFrame(channels), startMs, endMs);
      r == if slice == [] then WholeFile else Segment(slice)
    ensures startMs < endMs && startMs >= LastEnd(captured, rate) ==> r == WholeFile
  {
    r := GetAudioSegment(rows, startMs, endMs, rate, channels);
    SortRestoresLedger(rows, LedgerOf(pcm, captured, rate, channels), pcm, captured, rate, channels);
    if startMs < endMs {
      if startMs < LastEnd(captured, rate) {
        RecoveredParts(pcm, captured, rate, channels, startMs, endMs);
      } else {
        PastTheEnd(LedgerOf(pcm, captured, rate, channels), pcm, captured, rate, channels, ChunkCount(captured, rate), startMs, endMs);
        assert LedgerOf(pcm, captured, rate, channels)[..ChunkCount(captured, rate)] == LedgerOf(pcm, captured, rate, channels);
      }
    }
  }

  lemma {:induction false} PastTheEnd(rows: seq<Row>, pcm: Bytes, captured: nat, rate: nat, channels: nat, n: nat, startMs: nat, endMs: nat)
    requires 0 < captured && captured * 1000 <= U64_MAX && 0 < rate && IsU32(rate)
    requires |pcm| == captured * BytesPerFrame(channels) && rows == LedgerOf(pcm, captured, rate, channels)
    requires startMs >= LastEnd(captured, rate) && n <= |rows|
    ensures Parts(rows[..n], startMs, endMs, rate, BytesPerFrame(channels)) == []
  {
    if n > 0 {
      PastTheEnd(rows, pcm, captured, rate, channels, n - 1, startMs, endMs);
      EndsBefore(rows[n - 1], pcm, captured, rate, channels, n - 1, startMs);
      assert rows[..n][..n - 1] == rows[..n - 1] && rows[..n][n - 1] == rows[n - 1];
    }
  }

  lemma EndsBefore(row: Row, pcm: Bytes, captured: nat, rate: nat, channels: nat, i: nat, startMs: nat)
    requires 0 < captured && captured * 1000 <= U64_MAX && 0 < rate && IsU32(rate)
    requires |pcm| == captured * BytesPerFrame(channels) && i < ChunkCount(captured, rate)
    requires row == LedgerOf(pcm, captured, rate, channels)[i] && startMs >= LastEnd(captured, rate)
    ensures row.endMs <= startMs
  {
    RowWindow(captured, rate, i);
  }

  // ----- how much of the recording a read can reach

  /** The recording ends on a whole millisecond, or within the first of its last window. */
  predicate EndsOnTime(captured: nat, rate: nat)
    requires rate > 0
  {
    captured * 1000 % rate == 0
    || (0 < ChunkCount(captured, rate) && captured * 1000 / rate == 60_000 * (ChunkCount(captured, rate) - 1))
  }

  lemma LastEndIs(captured: nat, rate: nat)
    requires 0 < captured && captured * 1000 <= U64_MAX && 0 < rate && IsU32(rate)
    ensures 0 < ChunkCount(captured, rate) && 60_000 * (ChunkCount(captured, rate) - 1) <= captured * 1000 / rate
    ensures LastEnd(captured, rate) == Max(captured * 1000 / rate, 60_000 * (ChunkCount(captured, rate) - 1) + 1)
  {
    assert 0 < ChunkCount(captured, rate) by {
      DivMod(captured, FramesPerChunk(rate));
    }
    WindowsEveryMinute(captured, rate, ChunkCount(captured, rate) - 1);
  }

  lemma FrameReached(ms: nat, rate: nat, captured: nat)
    ensures FrameAt(ms, rate) >= captured <==> ms * rate >= captured * 1000
  {
    if ms * rate >= captured * 1000 {
      QuotientOrder(captured * 1000, ms * rate, 1000);
      ExactQuotient(captured, 1000);
    } else {
      QuotientBelow(ms * rate, captured, 1000);
    }
  }

  lemma NextMillisecond(a: nat, rate: nat)
    requires rate > 0
    ensures (a / rate + 1) * rate > a
    ensures a / rate * rate >= a <==> a % rate == 0
  {
    DivMod(a, rate);
    assert (a / rate + 1) * rate == a / rate * rate + rate;
  }

  lemma LastFrameIsReached(captured: nat, rate: nat)
    requires 0 < captured && captured * 1000 <= U64_MAX && 0 < rate && IsU32(rate)
    ensures FrameAt(LastEnd(captured, rate), rate) >= captured <==> EndsOnTime(captured, rate)
  {
    LastEndIs(captured, rate);
    FrameReached(LastEnd(captured, rate), rate, captured);
    NextMillisecond(captured * 1000, rate);
  }

  lemma BytesReached(f: nat, captured: nat, b: nat)
    requires b > 0
    ensures f * b >= captured * b <==> f >= captured
  {
    if f >= captured {
      ProductOrder(captured, f, b);
    } else {
      ProductGap(f, captured, b);
    }
  }

  /** A read from the start past the end gives the whole recording exactly when it ends on a whole millisecond,
      or within the first of its last window; otherwise its last frames are out of reach. */
  lemma WholeReadIsComplete(pcm: Bytes, captured: nat, rate: nat, channels: nat, endMs: nat)
    requires 0 < captured && captured * 1000 <= U64_MAX && 0 < rate && IsU32(rate) && 0 < channels
    requires |pcm| == captured * BytesPerFrame(channels) && endMs >= LastEnd(captured, rate)
    ensures 0 < LastEnd(captured, rate)
    ensures WholeSlice(pcm, captured, rate, BytesPerFrame(channels), 0, endMs) == pcm <==> EndsOnTime(captured, rate)
  {
    var f, b := FrameAt(LastEnd(captured, rate), rate), BytesPerFrame(channels);
    LastFrameIsReached(captured, rate);
    BytesReached(f, captured, b);
    assert SpanByte(0, rate, b) == 0;
    assert pcm[0..|pcm|] == pcm;
    assert |pcm[0..Min(f * b, |pcm|)]| == Min(f * b, |pcm|);
  }
}
