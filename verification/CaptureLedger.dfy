/** The chunk ledger of a recording: the sixty-second windows rebuilt after an interruption, and the check
    the export makes of them (crates/vt-ffi/src/lib.rs:1267-1354, settings_api.rs:340-436). */
module CaptureLedger {
  import opened Prelude
  import opened IntegerMath

  const U64_MAX: nat := 0xFFFF_FFFF_FFFF_FFFF

  /** Multiplication and addition of 64-bit words stop at the largest word. */
  function SatMul(a: nat, b: nat): nat { Min(a * b, U64_MAX) }

  function SatAdd(a: nat, b: nat): nat { Min(a + b, U64_MAX) }

  /** A retention row; `plain` is what decrypting its file yields, and `id` orders the rows as their chunk
      ids do. */
  datatype Row = Row(startMs: nat, endMs: nat, id: int, encrypted: bool, deleted: bool, onDisk: bool, plain: Bytes)

  datatype Window = Window(startMs: nat, endMs: nat)

  // ----- rebuilding the windows

  function FramesPerChunk(rate: nat): nat {
    SatMul(Max(rate, 1), 60)
  }

  function DivCeil(a: nat, b: nat): nat
    requires b > 0
  {
    if a % b == 0 then a / b else a / b + 1
  }

  function ChunkCount(captured: nat, rate: nat): nat {
    if captured == 0 then 1 else DivCeil(captured, FramesPerChunk(rate))
  }

  function StartFrame(rate: nat, index: nat): nat {
    SatMul(index, FramesPerChunk(rate))
  }

  function EndFrame(captured: nat, rate: nat, index: nat): nat {
    Min(captured, SatAdd(StartFrame(rate, index), FramesPerChunk(rate)))
  }

  function ToMs(frame: nat, rate: nat): nat {
    SatMul(frame, 1000) / Max(rate, 1)
  }

  function WindowAt(captured: nat, rate: nat, index: nat): Window {
    Window(ToMs(StartFrame(rate, index), rate), ToMs(EndFrame(captured, rate, index), rate))
  }

  function AllWindows(captured: nat, rate: nat): (windows: seq<Window>)
    ensures |windows| == ChunkCount(captured, rate)
  {
    seq(ChunkCount(captured, rate), i requires 0 <= i < ChunkCount(captured, rate) => WindowAt(captured, rate, i))
  }

  /** The windows, or the first chunk whose file is missing. */
  datatype Indexed = Windows(windows: seq<Window>) | MissingChunk(index: nat)

  method IndexedCaptureChunks(captured: nat, rate: nat, isOnDisk: nat -> bool) returns (r: Indexed)
    ensures r.Windows? <==> forall i: nat | i < ChunkCount(captured, rate) :: isOnDisk(i)
    ensures r.Windows? ==> r.windows == AllWindows(captured, rate)
    ensures r.MissingChunk? ==> r.index < ChunkCount(captured, rate) && !isOnDisk(r.index) && forall i: nat | i < r.index :: isOnDisk(i)
  {
    var chunkCount := ChunkCount(captured, rate);
    var windows := [];
    for index := 0 to chunkCount
      invariant windows == AllWindows(captured, rate)[..index]
      invariant forall i: nat | i < index :: isOnDisk(i)
    {
      var startFrame := StartFrame(rate, index);
      var endFrame := EndFrame(captured, rate, index);
      if !isOnDisk(index) {
        return MissingChunk(index);
      }
      windows := windows + [Window(ToMs(startFrame, rate), ToMs(endFrame, rate))];
    }
    r := Windows(windows);
  }

  /** What the rebuilt ledger stores for a window: at least one millisecond long. */
  function Recovered(w: Window, id: int, plain: Bytes): Row {
    Row(w.startMs, Max(w.endMs, w.startMs + 1), id, true, false, true, plain)
  }

  // ----- the windows tile the recording

  predicate IsU64(n: nat) { n <= U64_MAX }

  predicate IsU32(n: nat) { n < 0x1_0000_0000 }

  /** The last window's start lies inside the recording, and each window but the last is full. */
  lemma CountBounds(captured: nat, rate: nat, index: nat)
    requires 0 < captured && IsU64(captured) && 0 < rate && IsU32(rate)
    requires index < ChunkCount(captured, rate)
    ensures FramesPerChunk(rate) == 60 * rate
    ensures index * (60 * rate) < captured <= ChunkCount(captured, rate) * (60 * rate)
    ensures StartFrame(rate, index) == index * (60 * rate)
    ensures index + 1 < ChunkCount(captured, rate) ==> (index + 1) * (60 * rate) < captured
  {
    var f, n := 60 * rate, ChunkCount(captured, rate);
    assert captured == f * (captured / f) + captured % f;
    assert n * f >= captured && (n - 1) * f < captured;
    ProductOrder(index, n - 1, f);
    if index + 1 < n {
      ProductOrder(index + 1, n - 1, f);
    }
  }

  /** Frames: no gap, no overlap, nothing left over, for every recording and every rate. */
  lemma WindowsTileFrames(captured: nat, rate: nat, index: nat)
    requires 0 < captured && IsU64(captured) && 0 < rate && IsU32(rate)
    requires index < ChunkCount(captured, rate)
    ensures StartFrame(rate, 0) == 0
    ensures StartFrame(rate, index) < EndFrame(captured, rate, index) <= captured
    ensures EndFrame(captured, rate, index) == if index + 1 < ChunkCount(captured, rate) then StartFrame(rate, index + 1) else captured
  {
    var f, n := 60 * rate, ChunkCount(captured, rate);
    CountBounds(captured, rate, index);
    assert (index + 1) * f == index * f + f;
    if index + 1 < n {
      CountBounds(captured, rate, index + 1);
    } else {
      assert n * f == index * f + f;
    }
  }

  /** Milliseconds: each window ends where the next starts and the last where the recording does, whatever its
      length; a window starts at its sixty seconds exactly when that many frames, times a thousand, fit 64 bits. */
  lemma WindowsTileMs(captured: nat, rate: nat, index: nat)
    requires 0 < captured && IsU64(captured) && 0 < rate && IsU32(rate)
    requires index < ChunkCount(captured, rate)
    ensures WindowAt(captured, rate, 0).startMs == 0
    ensures index + 1 < ChunkCount(captured, rate) ==> WindowAt(captured, rate, index).endMs == WindowAt(captured, rate, index + 1).startMs
    ensures index + 1 == ChunkCount(captured, rate) ==> WindowAt(captured, rate, index).endMs == ToMs(captured, rate)
    ensures WindowAt(captured, rate, index).startMs <= WindowAt(captured, rate, index).endMs
    ensures WindowAt(captured, rate, index).startMs == 60_000 * index <==> 60_000 * index * rate <= U64_MAX
  {
    WindowsTileFrames(captured, rate, index);
    MomentsRise(StartFrame(rate, index), EndFrame(captured, rate, index), rate);
    StartInMs(captured, rate, index);
    StartsOnTime(60_000 * index, rate);
  }

  lemma MomentsRise(a: nat, b: nat, rate: nat)
    requires a <= b && 0 < rate
    ensures ToMs(a, rate) <= ToMs(b, rate)
  {
    QuotientOrder(SatMul(a, 1000), SatMul(b, 1000), rate);
  }

  lemma StartInMs(captured: nat, rate: nat, index: nat)
    requires 0 < captured && IsU64(captured) && 0 < rate && IsU32(rate)
    requires index < ChunkCount(captured, rate)
    ensures ToMs(StartFrame(rate, index), rate) == Min(60_000 * index * rate, U64_MAX) / rate
  {
    CountBounds(captured, rate, index);
    MinutesOf(index, rate);
  }

  lemma MinutesOf(index: nat, rate: nat)
    ensures index * (60 * rate) * 1000 == 60_000 * index * rate
  {
  }

  /** A saturated product is short of the moment it stands for. */
  lemma StartsOnTime(ms: nat, rate: nat)
    requires 0 < rate
    ensures Min(ms * rate, U64_MAX) / rate == ms <==> ms * rate <= U64_MAX
  {
    if ms * rate <= U64_MAX {
      ExactQuotient(ms, rate);
    } else {
      QuotientBelow(U64_MAX, ms, rate);
    }
  }

  /** Where nothing saturates, the windows start every sixty seconds. */
  lemma WindowsEveryMinute(captured: nat, rate: nat, index: nat)
    requires 0 < captured && captured * 1000 <= U64_MAX && 0 < rate && IsU32(rate)
    requires index < ChunkCount(captured, rate)
    ensures WindowAt(captured, rate, index).startMs == 60_000 * index
    ensures index + 1 < ChunkCount(captured, rate) ==> WindowAt(captured, rate, index).endMs == 60_000 * (index + 1)
    ensures index + 1 == ChunkCount(captured, rate) ==> WindowAt(captured, rate, index).endMs == captured * 1000 / rate
    ensures WindowAt(captured, rate, index).startMs <= WindowAt(captured, rate, index).endMs
  {
    StartFits(captured, rate, index);
    WindowsTileMs(captured, rate, index);
    if index + 1 < ChunkCount(captured, rate) {
      StartFits(captured, rate, index + 1);
      WindowsTileMs(captured, rate, index + 1);
    }
  }

  lemma StartFits(captured: nat, rate: nat, index: nat)
    requires 0 < captured && captured * 1000 <= U64_MAX && 0 < rate && IsU32(rate)
    requires index < ChunkCount(captured, rate)
    ensures 60_000 * index * rate <= U64_MAX
  {
    CountBounds(captured, rate, index);
    MinutesOf(index, rate);
  }

  // ----- the export

  function BytesPerFrame(channels: nat): nat {
    channels * 4
  }

  /** The bytes of a number of frames. */
  function FrameBytes(frames: nat, channels: nat): nat {
    frames * BytesPerFrame(channels)
  }

  /** The row is what the export expects at place `index`. */
  predicate RowFits(row: Row, captured: nat, rate: nat, channels: nat, index: nat)
    requires StartFrame(rate, index) <= EndFrame(captured, rate, index)
  {
    var w := WindowAt(captured, rate, index);
    && !row.deleted && row.encrypted
    && row.startMs == w.startMs && row.endMs == Max(w.endMs, w.startMs + 1)
    && row.onDisk
    && |row.plain| == FrameBytes(EndFrame(captured, rate, index) - StartFrame(rate, index), channels)
  }

  function ConcatPlain(rows: seq<Row>): Bytes {
    if rows == [] then [] else ConcatPlain(rows[..|rows| - 1]) + rows[|rows| - 1].plain
  }

  datatype Export =
    | Exported(pcm: Bytes)
    | NoFormat
    | EmptyCapture
    | WrongCount
    | BadWindow(index: nat)
    | MissingFile(index: nat)
    | ShortChunk(index: nat)

  /** The whole ledger is as expected. */
  ghost predicate LedgerFits(rows: seq<Row>, captured: nat, rate: nat, channels: nat)
    requires 0 < captured && IsU64(captured) && 0 < rate && IsU32(rate)
  {
    && |rows| == ChunkCount(captured, rate)
    && forall i: nat | i < |rows| ::
         StartFrame(rate, i) <= EndFrame(captured, rate, i) && RowFits(rows[i], captured, rate, channels, i)
  }

  /** Where the first `n` windows end. */
  function Boundary(captured: nat, rate: nat, n: nat): nat {
    if n < ChunkCount(captured, rate) then StartFrame(rate, n) else captured
  }

  lemma BoundaryStep(captured: nat, rate: nat, n: nat)
    requires 0 < captured && IsU64(captured) && 0 < rate && IsU32(rate) && n < ChunkCount(captured, rate)
    ensures Boundary(captured, rate, 0) == 0
    ensures Boundary(captured, rate, n) == StartFrame(rate, n) < EndFrame(captured, rate, n) == Boundary(captured, rate, n + 1) <= captured
  {
    WindowsTileFrames(captured, rate, n);
  }

  // ----- cutting a recording into the bytes of its windows

  /** The byte positions between the windows. */
  function Cuts(captured: nat, rate: nat, channels: nat): (cuts: seq<nat>)
    ensures |cuts| == ChunkCount(captured, rate) + 1
  {
    seq(ChunkCount(captured, rate) + 1, n requires 0 <= n < ChunkCount(captured, rate) + 1 => FrameBytes(Boundary(captured, rate, n), channels))
  }

  ghost predicate AreCuts(cuts: seq<nat>, total: nat) {
    |cuts| > 0 && cuts[0] == 0 && cuts[|cuts| - 1] == total
    && forall i, j | 0 <= i <= j < |cuts| :: cuts[i] <= cuts[j] <= total
  }

  lemma CutsAreCuts(captured: nat, rate: nat, channels: nat)
    requires 0 < captured && IsU64(captured) && 0 < rate && IsU32(rate)
    ensures AreCuts(Cuts(captured, rate, channels), captured * BytesPerFrame(channels))
  {
    var cuts := Cuts(captured, rate, channels);
    BoundaryStep(captured, rate, 0);
    forall i, j | 0 <= i <= j < |cuts|
      ensures cuts[i] <= cuts[j] <= captured * BytesPerFrame(channels)
    {
      CutsRise(captured, rate, channels, i, j);
    }
  }

  lemma CutsRise(captured: nat, rate: nat, channels: nat, i: nat, j: nat)
    requires 0 < captured && IsU64(captured) && 0 < rate && IsU32(rate) && i <= j <= ChunkCount(captured, rate)
    ensures FrameBytes(Boundary(captured, rate, i), channels) <= FrameBytes(Boundary(captured, rate, j), channels) <= captured * BytesPerFrame(channels)
  {
    BoundariesRise(captured, rate, i, j);
    ProductOrder(Boundary(captured, rate, i), Boundary(captured, rate, j), BytesPerFrame(channels));
    ProductOrder(Boundary(captured, rate, j), captured, BytesPerFrame(channels));
  }

  lemma {:induction false} BoundariesRise(captured: nat, rate: nat, i: nat, j: nat)
    requires 0 < captured && IsU64(captured) && 0 < rate && IsU32(rate)
    requires i <= j <= ChunkCount(captured, rate)
    ensures Boundary(captured, rate, i) <= Boundary(captured, rate, j) <= captured
    decreases j - i
  {
    if i < j {
      BoundaryStep(captured, rate, i);
      BoundariesRise(captured, rate, i + 1, j);
    } else if j < ChunkCount(captured, rate) {
      BoundaryStep(captured, rate, j);
    }
  }

  lemma ProductDifference(a: nat, b: nat, c: nat)
    requires a <= b
    ensures b * c - a * c == (b - a) * c
  {
  }

  lemma WindowBytes(captured: nat, rate: nat, channels: nat, i: nat)
    requires 0 < captured && IsU64(captured) && 0 < rate && IsU32(rate) && i < ChunkCount(captured, rate)
    ensures StartFrame(rate, i) <= EndFrame(captured, rate, i)
    ensures Cuts(captured, rate, channels)[i + 1] ==
      Cuts(captured, rate, channels)[i] + FrameBytes(EndFrame(captured, rate, i) - StartFrame(rate, i), channels)
  {
    BoundaryStep(captured, rate, i);
    ProductDifference(StartFrame(rate, i), EndFrame(captured, rate, i), BytesPerFrame(channels));
  }

  /** Row `i` is the first that does not fit, and `r` says what is wrong with it: its window or state, or else its file, or
      else its length. */
  ghost predicate IsRefusal(rows: seq<Row>, captured: nat, rate: nat, channels: nat, r: Export, i: nat)
    requires rate > 0 && forall k: nat | k < |rows| :: StartFrame(rate, k) <= EndFrame(captured, rate, k)
  {
    && i < |rows| && (forall k: nat | k < i :: RowFits(rows[k], captured, rate, channels, k)) && IsReason(rows[i], captured, rate, channels, i, r)
  }

  predicate IsReason(row: Row, captured: nat, rate: nat, channels: nat, i: nat, r: Export)
    requires rate > 0 && StartFrame(rate, i) <= EndFrame(captured, rate, i)
  {
    var w := WindowAt(captured, rate, i);
    var isRight := !row.deleted && row.encrypted && row.startMs == w.startMs && row.endMs == Max(w.endMs, w.startMs + 1);
    var isLong := |row.plain| == FrameBytes(EndFrame(captured, rate, i) - StartFrame(rate, i), channels);
    match r
    case BadWindow(n) => n == i && !isRight
    case MissingFile(n) => n == i && isRight && !row.onDisk
    case ShortChunk(n) => n == i && isRight && row.onDisk && !isLong
    case _ => false
  }

  /** Checks the rows one by one and joins their audio. */
  method JoinRows(rows: seq<Row>, captured: nat, rate: nat, channels: nat, ghost cuts: seq<nat>) returns (r: Export)
    requires 0 < captured && IsU64(captured) && 0 < rate && IsU32(rate) && |rows| == ChunkCount(captured, rate)
    requires |cuts| == |rows| + 1 && cuts[0] == 0
    requires forall i: nat | i < |rows| ::
      && StartFrame(rate, i) <= EndFrame(captured, rate, i)
      && cuts[i + 1] == cuts[i] + FrameBytes(EndFrame(captured, rate, i) - StartFrame(rate, i), channels)
    ensures r.Exported? <==> LedgerFits(rows, captured, rate, channels)
    ensures r.Exported? ==> r.pcm == ConcatPlain(rows) && |r.pcm| == cuts[|rows|]
    ensures !r.Exported? ==> exists i: nat :: IsRefusal(rows, captured, rate, channels, r, i)
  {
    var pcm: Bytes := [];
    for index := 0 to |rows|
      invariant pcm == ConcatPlain(rows[..index]) && |pcm| == cuts[index]
      invariant forall i: nat | i < index :: RowFits(rows[i], captured, rate, channels, i)
    {
      var refused := CheckRow(rows[index], captured, rate, channels, index);
      if refused.Some? {
        assert IsRefusal(rows, captured, rate, channels, refused.value, index);
        return refused.value;
      }
      pcm := pcm + rows[index].plain;
      assert rows[..index + 1][..index] == rows[..index];
    }
    assert rows[..|rows|] == rows;
    r := Exported(pcm);
  }

  /** The audio is exported exactly when the ledger fits, and then it is all of the chunks, with
      captured * channels * 4 bytes. */
  method DecryptSessionAudio(rows: seq<Row>, captured: nat, rate: nat, channels: nat) returns (r: Export)
    requires IsU64(captured) && IsU32(rate)
    ensures r.Exported? <==> rate > 0 && channels > 0 && captured > 0 && LedgerFits(rows, captured, rate, channels)
    ensures r.Exported? ==> r.pcm == ConcatPlain(rows) && |r.pcm| == captured * BytesPerFrame(channels)
    ensures r.NoFormat? <==> rate == 0 || channels == 0
    ensures r.EmptyCapture? <==> rate > 0 && channels > 0 && captured == 0
    ensures r.WrongCount? <==> rate > 0 && channels > 0 && captured > 0 && |rows| != ChunkCount(captured, rate)
    ensures r.BadWindow? || r.MissingFile? || r.ShortChunk? ==>
      rate > 0 && (forall k: nat | k < |rows| :: StartFrame(rate, k) <= EndFrame(captured, rate, k))
      && exists i: nat :: IsRefusal(rows, captured, rate, channels, r, i)
  {
    if rate == 0 || channels == 0 {
      return NoFormat;
    }
    if captured == 0 {
      return EmptyCapture;
    }
    var expectedCount := ChunkCount(captured, rate);
    if |rows| != expectedCount {
      return WrongCount;
    }
    ghost var cuts := Cuts(captured, rate, channels);
    CutsAreCuts(captured, rate, channels);
    forall i: nat | i < |rows|
      ensures StartFrame(rate, i) <= EndFrame(captured, rate, i)
      ensures cuts[i + 1] == cuts[i] + FrameBytes(EndFrame(captured, rate, i) - StartFrame(rate, i), channels)
    {
      WindowBytes(captured, rate, channels, i);
    }
    r := JoinRows(rows, captured, rate, channels, cuts);
  }

  /** What is wrong with one row, if anything. */
  method CheckRow(row: Row, captured: nat, rate: nat, channels: nat, index: nat) returns (refused: Option<Export>)
    requires rate > 0 && StartFrame(rate, index) <= EndFrame(captured, rate, index)
    ensures refused.None? <==> RowFits(row, captured, rate, channels, index)
    ensures refused.Some? ==> !refused.value.Exported? && IsReason(row, captured, rate, channels, index, refused.value)
  {
    var startFrame, endFrame := StartFrame(rate, index), EndFrame(captured, rate, index);
    var expectedStart := ToMs(startFrame, rate);
    var expectedEnd := Max(ToMs(endFrame, rate), expectedStart + 1);
    if row.deleted || !row.encrypted || row.startMs != expectedStart || row.endMs != expectedEnd {
      return Some(BadWindow(index));
    }
    if !row.onDisk {
      return Some(MissingFile(index));
    }
    if |row.plain| != FrameBytes(endFrame - startFrame, channels) {
      return Some(ShortChunk(index));
    }
    refused := None;
  }

  // ----- what the export asks of a ledger

  /** The row for minute `i`: there, encrypted, and with the minute's moments and its frames' bytes. A minute ends where
      the recording does if that is earlier, and lasts a millisecond at least. */
  predicate IsMinute(row: Row, captured: nat, rate: nat, channels: nat, i: nat)
    requires rate > 0 && i * 60 * rate <= captured
  {
    var start, stop := i * 60 * rate, Min(captured, (i + 1) * 60 * rate);
    && !row.deleted && row.encrypted && row.onDisk
    && row.startMs == Min(start * 1000, U64_MAX) / rate
    && row.endMs == Max(Min(stop * 1000, U64_MAX) / rate, row.startMs + 1)
    && |row.plain| == (stop - start) * channels * 4
  }

  /** One row for each minute begun. */
  ghost predicate IsWhole(rows: seq<Row>, captured: nat, rate: nat, channels: nat)
    requires rate > 0
  {
    && |rows| > 0 && (|rows| - 1) * 60 * rate < captured <= |rows| * 60 * rate
    && forall i: nat | i < |rows| :: i * 60 * rate <= captured && IsMinute(rows[i], captured, rate, channels, i)
  }

  lemma MinuteFits(row: Row, captured: nat, rate: nat, channels: nat, i: nat)
    requires 0 < captured && IsU64(captured) && 0 < rate && IsU32(rate) && i < ChunkCount(captured, rate)
    ensures i * 60 * rate <= captured && StartFrame(rate, i) <= EndFrame(captured, rate, i)
    ensures RowFits(row, captured, rate, channels, i) <==> IsMinute(row, captured, rate, channels, i)
  {
    WindowsTileFrames(captured, rate, i);
    CountBounds(captured, rate, i);
    MinuteFrames(captured, rate, i);
    assert (EndFrame(captured, rate, i) - StartFrame(rate, i)) * channels * 4 == FrameBytes(EndFrame(captured, rate, i) - StartFrame(rate, i), channels);
  }

  lemma MinuteFrames(captured: nat, rate: nat, i: nat)
    requires 0 < captured && IsU64(captured) && 0 < rate && IsU32(rate) && i < ChunkCount(captured, rate)
    ensures StartFrame(rate, i) == i * 60 * rate && EndFrame(captured, rate, i) == Min(captured, (i + 1) * 60 * rate)
  {
    CountBounds(captured, rate, i);
    WindowsTileFrames(captured, rate, i);
    assert i * 60 * rate == i * (60 * rate) && (i + 1) * 60 * rate == (i + 1) * (60 * rate);
    if i + 1 < ChunkCount(captured, rate) {
      CountBounds(captured, rate, i + 1);
    }
  }

  lemma MinutesBegun(captured: nat, rate: nat, n: nat)
    requires 0 < captured && IsU64(captured) && 0 < rate && IsU32(rate)
    ensures n > 0 && (n - 1) * 60 * rate < captured <= n * 60 * rate <==> n == ChunkCount(captured, rate)
  {
    var f, m := 60 * rate, ChunkCount(captured, rate);
    assert n * 60 * rate == n * f && (n - 1) * 60 * rate == (n - 1) * f;
    DivMod(captured, f);
    assert m > 0 by {
      assert captured == f * (captured / f) + captured % f;
    }
    CountBounds(captured, rate, m - 1);
    if n < m {
      ProductOrder(n, m - 1, f);
    } else if n > m {
      ProductOrder(m, n - 1, f);
    }
  }

  /** A ledger is exported exactly when it has one such row for each minute begun, in order. So a deleted, an unencrypted
      and a shifted row are all refused. */
  lemma LedgerFitsExactly(rows: seq<Row>, captured: nat, rate: nat, channels: nat)
    requires 0 < captured && IsU64(captured) && 0 < rate && IsU32(rate)
    ensures LedgerFits(rows, captured, rate, channels) <==> IsWhole(rows, captured, rate, channels)
  {
    MinutesBegun(captured, rate, |rows|);
    if |rows| == ChunkCount(captured, rate) {
      forall i: nat | i < |rows|
        ensures i * 60 * rate <= captured && StartFrame(rate, i) <= EndFrame(captured, rate, i)
        ensures RowFits(rows[i], captured, rate, channels, i) <==> IsMinute(rows[i], captured, rate, channels, i)
      {
        MinuteFits(rows[i], captured, rate, channels, i);
      }
    }
  }

  // ----- what the recovery writes, the export accepts

  function Recover(pcm: Bytes, cuts: seq<nat>, captured: nat, rate: nat): (rows: seq<Row>)
    requires AreCuts(cuts, |pcm|) && |cuts| == ChunkCount(captured, rate) + 1
    ensures |rows| == ChunkCount(captured, rate)
  {
    seq(ChunkCount(captured, rate), i requires 0 <= i < ChunkCount(captured, rate) =>
      Recovered(WindowAt(captured, rate, i), i, pcm[cuts[i]..cuts[i + 1]]))
  }

  /** The recovered ledger of a recording. */
  function LedgerOf(pcm: Bytes, captured: nat, rate: nat, channels: nat): (rows: seq<Row>)
    requires 0 < captured && IsU64(captured) && 0 < rate && IsU32(rate)
    requires |pcm| == captured * BytesPerFrame(channels)
    ensures |rows| == ChunkCount(captured, rate)
  {
    CutsAreCuts(captured, rate, channels);
    Recover(pcm, Cuts(captured, rate, channels), captured, rate)
  }

  lemma ConcatOneMore(rows: seq<Row>, row: Row)
    ensures ConcatPlain(rows + [row]) == ConcatPlain(rows) + row.plain
  {
    assert (rows + [row])[..|rows|] == rows;
  }

  lemma SlicesMeet(pcm: Bytes, a: nat, b: nat)
    requires a <= b <= |pcm|
    ensures pcm[..a] + pcm[a..b] == pcm[..b]
  {
  }

  lemma {:induction false} PiecesConcat(pcm: Bytes, cuts: seq<nat>, captured: nat, rate: nat, n: nat)
    requires AreCuts(cuts, |pcm|) && |cuts| == ChunkCount(captured, rate) + 1 && n < |cuts|
    ensures ConcatPlain(Recover(pcm, cuts, captured, rate)[..n]) == pcm[..cuts[n]]
  {
    var rows := Recover(pcm, cuts, captured, rate);
    if n == 0 {
      assert rows[..0] == [] && pcm[..0] == [];
    } else {
      PiecesConcat(pcm, cuts, captured, rate, n - 1);
      assert rows[..n] == rows[..n - 1] + [rows[n - 1]];
      ConcatOneMore(rows[..n - 1], rows[n - 1]);
      SlicesMeet(pcm, cuts[n - 1], cuts[n]);
    }
  }

  /** A ledger rebuilt after an interruption passes every check of the export, which gives back the recording. */
  lemma RecoveredLedgerFits(pcm: Bytes, captured: nat, rate: nat, channels: nat)
    requires 0 < captured && IsU64(captured) && 0 < rate && IsU32(rate)
    requires |pcm| == captured * BytesPerFrame(channels)
    ensures LedgerFits(LedgerOf(pcm, captured, rate, channels), captured, rate, channels)
    ensures ConcatPlain(LedgerOf(pcm, captured, rate, channels)) == pcm
  {
    var rows, cuts := LedgerOf(pcm, captured, rate, channels), Cuts(captured, rate, channels);
    CutsAreCuts(captured, rate, channels);
    forall i: nat | i < |rows|
      ensures StartFrame(rate, i) <= EndFrame(captured, rate, i) && RowFits(rows[i], captured, rate, channels, i)
    {
      WindowBytes(captured, rate, channels, i);
    }
    PiecesConcat(pcm, cuts, captured, rate, |rows|);
    assert rows[..|rows|] == rows && pcm[..|pcm|] == pcm;
  }
}
