// The snapshot service: an interrupt fills a buffer, the main loop sends it.
module Snapshot {

  const MAX_SAMPLES: nat := 512
  const CHANNELS: nat := 7
  const SAMPLES_PER_FRAME: nat := 4
  const FRAMES_PER_POLL: nat := 16
  const MAX_ROWS_PER_POLL: nat := SAMPLES_PER_FRAME * FRAMES_PER_POLL

  datatype State = Idle | Capturing | Ready | Sending

  // One row of the buffer, and the seven values it is made of.
  type Row = seq<int>
  type Sample = seq<real>

  // A data frame; words past the last sample are zero.
  datatype Frame = Frame(start: nat, n: nat, words: seq<int>)

  // Thousandths in 16 bits, cut toward zero and saturated.
  function ToMilli16(value: real): (m: int)
    ensures -32768 <= m <= 32767
    ensures -32.768 <= value <= 32.767 ==> -0.001 < m as real / 1000.0 - value < 0.001
  {
    var milli := value * 1000.0;
    if milli > 32767.0 then 32767
    else if milli < -32768.0 then -32768
    else if milli >= 0.0 then milli.Floor
    else -((-milli).Floor)
  }

  function RowOf(s: Sample): (r: Row)
    ensures |r| == |s|
    ensures forall i :: 0 <= i < |s| ==> r[i] == ToMilli16(s[i])
  {
    seq(|s|, i requires 0 <= i < |s| => ToMilli16(s[i]))
  }

  // The rows are every `decimate`-th pushed sample, in order.
  ghost predicate Decimated(rows: seq<Row>, pushed: seq<Sample>, decimate: nat)
  {
    rows == [] ||
    (0 < |rows| * decimate <= |pushed| && rows[|rows| - 1] == RowOf(pushed[|rows| * decimate - 1])
     && Decimated(rows[..|rows| - 1], pushed, decimate))
  }

  // Row j is sample (j + 1) * decimate of the capture.
  lemma {:induction false} DecimatedAt(rows: seq<Row>, pushed: seq<Sample>, decimate: nat, j: nat)
    requires Decimated(rows, pushed, decimate) && j < |rows|
    ensures 0 < (j + 1) * decimate <= |pushed| && rows[j] == RowOf(pushed[(j + 1) * decimate - 1])
  {
    if j < |rows| - 1 {
      DecimatedAt(rows[..|rows| - 1], pushed, decimate, j);
    }
  }

  lemma {:induction false} DecimatedMore(rows: seq<Row>, pushed: seq<Sample>, sample: Sample, decimate: nat)
    requires Decimated(rows, pushed, decimate)
    ensures Decimated(rows, pushed + [sample], decimate)
  {
    if rows != [] {
      DecimatedMore(rows[..|rows| - 1], pushed, sample, decimate);
    }
  }

  // The frame carries rows `start` to `start + n` of the capture.
  ghost predicate Carries(f: Frame, rows: seq<Row>)
  {
    && 0 < f.n <= SAMPLES_PER_FRAME && f.start + f.n <= |rows|
    && |f.words| == SAMPLES_PER_FRAME * CHANNELS
    && (forall i :: 0 <= i < f.n ==> f.words[CHANNELS * i..CHANNELS * i + CHANNELS] == rows[f.start + i])
    && forall w :: CHANNELS * f.n <= w < SAMPLES_PER_FRAME * CHANNELS ==> f.words[w] == 0
  }

  // The frames carry rows 0 to `end`, each exactly once, in order; only the
  // frame that ends the capture may be short.
  ghost predicate Tiles(frames: seq<Frame>, rows: seq<Row>, end: nat)
  {
    if frames == [] then end == 0
    else
      var last := frames[|frames| - 1];
      && Carries(last, rows) && last.start + last.n == end && Tiles(frames[..|frames| - 1], rows, last.start)
      && (last.n == SAMPLES_PER_FRAME || end == |rows|)
  }

  function RowsIn(samples: seq<int>, count: nat): (rows: seq<Row>)
    requires CHANNELS * count <= |samples|
    ensures |rows| == count
  {
    seq(count, j requires 0 <= j < count => samples[CHANNELS * j..CHANNELS * j + CHANNELS])
  }

  function Least(x: nat, y: nat): (m: nat)
    ensures m <= x && m <= y && (m == x || m == y)
  {
    if x < y then x else y
  }

  // What can happen next: a request, a sample, an abort, a turn of the loop.
  datatype Event = ArmRequest(count: nat, decimate: nat) | Push(sample: Sample) | AbortRequest | Poll(turn: Turn)

  // One turn of the main loop: whether the link takes the announcement, how
  // many frames it then has room for, and whether an interrupt may abort.
  datatype Turn = Turn(metaTaken: bool, room: nat, aborts: bool)

  class SnapshotService {
    var state: State
    var target: nat
    var count: nat
    var sendIndex: nat
    var decimate: nat
    var decimationCount: nat
    const samples: array<int>
    // Samples pushed and frames sent since the service was armed.
    ghost var pushed: seq<Sample>
    ghost var sent: seq<Frame>

    ghost function Rows(): (rows: seq<Row>)
      requires samples.Length == MAX_SAMPLES * CHANNELS && count <= MAX_SAMPLES
      reads this, samples
      ensures |rows| == count
    {
      RowsIn(samples[..], count)
    }

    ghost predicate Valid()
      reads this, samples
    {
      && samples.Length == MAX_SAMPLES * CHANNELS
      && count <= target <= MAX_SAMPLES && sendIndex <= count && decimate >= 1
      && (state == Capturing ==> count < target && decimationCount < decimate
                                 && |pushed| == count * decimate + decimationCount)
      && (state in {Capturing, Ready} ==> sent == [] && sendIndex == 0)
      && (state in {Ready, Sending} ==> count == target)
      && Decimated(Rows(), pushed, decimate)
      && Tiles(sent, Rows(), sendIndex)
    }

    constructor ()
      ensures Valid() && state == Idle && fresh(samples)
    {
      samples := new int[MAX_SAMPLES * CHANNELS];
      state, target, count, sendIndex, decimate, decimationCount := Idle, 0, 0, 0, 1, 0;
      pushed, sent := [], [];
    }

    method Arm(sampleCount: nat, decimateBy: nat) returns (ok: bool)
      requires Valid()
      modifies this
      ensures Valid() && ok == (old(state) == Idle)
      ensures ok ==> state == Capturing && pushed == [] && sent == []
      ensures ok ==> target == (if sampleCount == 0 || sampleCount > MAX_SAMPLES then MAX_SAMPLES else sampleCount)
      ensures ok ==> decimate == (if decimateBy == 0 then 1 else decimateBy)
      ensures !ok ==> unchanged(this)
    {
      hide Decimated, Tiles, RowsIn;
      if state != Idle {
        return false;
      }
      NothingYet(samples[..], if decimateBy == 0 then 1 else decimateBy);
      target := if sampleCount == 0 || sampleCount > MAX_SAMPLES then MAX_SAMPLES else sampleCount;
      decimate := if decimateBy == 0 then 1 else decimateBy;
      count, decimationCount, sendIndex := 0, 0, 0;
      pushed, sent := [], [];
      state := Capturing;
      ok := true;
    }

    method Abort()
      requires Valid()
      modifies this`state
      ensures Valid() && state == Idle
    {
      state := Idle;
    }

    method StoreRow(sample: Sample)
      requires samples.Length == MAX_SAMPLES * CHANNELS && count < MAX_SAMPLES && |sample| == CHANNELS
      modifies this`count, samples
      ensures count == old(count) + 1 && Rows() == old(Rows()) + [RowOf(sample)]
    {
      var start := CHANNELS * count;
      ghost var before := samples[..];
      forall c | 0 <= c < CHANNELS {
        samples[start + c] := ToMilli16(sample[c]);
      }
      count := count + 1;
      assert samples[..start] == before[..start];
      RowAdded(before, samples[..], count - 1, sample);
    }

    // The interrupt's producer: while capturing, every `decimate`-th sample
    // becomes the next row, until the target is reached.
    method PushIsr(sample: Sample)
      requires Valid() && |sample| == CHANNELS
      modifies this`state, this`count, this`decimationCount, this`pushed, samples
      ensures Valid()
      ensures old(state) != Capturing ==> unchanged(this) && unchanged(samples)
      ensures old(state) == Capturing ==>
        && pushed == old(pushed) + [sample] && state in {Capturing, Ready}
        && (state == Ready <==> |pushed| == target * decimate)
    {
      hide Decimated, Tiles, RowsIn, RowOf;
      if state != Capturing {
        return;
      }
      CountBelow(count, target, decimate, decimationCount);
      DecimatedMore(Rows(), pushed, sample, decimate);
      if decimationCount + 1 < decimate {
        decimationCount, pushed := decimationCount + 1, pushed + [sample];
      } else {
        TakeRow(sample);
      }
    }

    method TakeRow(sample: Sample)
      requires Valid() && |sample| == CHANNELS && state == Capturing && decimationCount + 1 == decimate
      requires Decimated(Rows(), pushed + [sample], decimate)
      modifies this`state, this`count, this`decimationCount, this`pushed, samples
      ensures Valid() && pushed == old(pushed) + [sample] && state == (if count == target then Ready else Capturing)
      ensures count == old(count) + 1 && decimationCount == 0
    {
      hide Decimated, Tiles, RowsIn, RowOf;
      ghost var rows := Rows();
      pushed := pushed + [sample];
      RowEnd(count, decimate);
      decimationCount := 0;
      StoreRow(sample);
      DecimatedNext(rows, pushed, sample, decimate);
      TilesNothing(Rows());
      if count >= target {
        state := Ready;
      }
    }

    // What interrupts may do to a main loop that is sending: only abort.
    method Interrupts(aborts: bool)
      requires Valid() && state != Capturing
      modifies this`state
      ensures Valid() && (state == old(state) || (aborts && state == Idle))
    {
      var aborted: bool := *;
      if aborts && aborted {
        Abort();
      }
    }

    method FillDataFrame() returns (f: Frame)
      requires Valid() && sendIndex < count
      ensures Carries(f, Rows()) && f.start == sendIndex
      ensures f.n == if count - sendIndex > SAMPLES_PER_FRAME then SAMPLES_PER_FRAME else count - sendIndex
    {
      hide Decimated, Tiles, RowsIn, Carries;
      var remaining := count - sendIndex;
      var n := if remaining > SAMPLES_PER_FRAME then SAMPLES_PER_FRAME else remaining;
      var words := new int[SAMPLES_PER_FRAME * CHANNELS](_ => 0);
      var start := sendIndex * CHANNELS;
      for i := 0 to n * CHANNELS
        invariant forall w :: 0 <= w < i ==> words[w] == samples[start + w]
        invariant forall w :: i <= w < SAMPLES_PER_FRAME * CHANNELS ==> words[w] == 0
      {
        words[i] := samples[start + i];
      }
      f := Frame(sendIndex, n, words[..]);
      FrameCarries(samples[..], count, f);
    }

    // `link->SendSnapData`: the frame is queued, or the link is busy.
    method Send(f: Frame, room: nat) returns (ok: bool)
      modifies this`sent
      ensures ok == (room > 0) && sent == if ok then old(sent) + [f] else old(sent)
    {
      ok := room > 0;
      sent := if ok then sent + [f] else sent;
    }

    // One turn of the main loop: sixteen frames, or as many as the link has
    // room for, or all that are left. Wherever interrupts abort, the frames
    // sent so far are the first rows of the capture, each once. A capture that
    // is all out is found done unless the sixteenth frame ended the turn.
    method PollSend(turn: Turn)
      requires Valid()
      modifies this`state, this`sendIndex, this`sent
      ensures Valid() && Rows() == old(Rows()) && pushed == old(pushed)
      ensures old(sent) <= sent && |sent| <= |old(sent)| + FRAMES_PER_POLL
      ensures old(state) in {Idle, Capturing} ==> unchanged(this)
      ensures old(state) == Ready && !turn.metaTaken ==>
        sent == [] && sendIndex == 0 && (state == Ready || (turn.aborts && state == Idle))
      ensures old(state) == Sending || (old(state) == Ready && turn.metaTaken) ==>
        && sendIndex == Least(count, old(sendIndex) + SAMPLES_PER_FRAME * Least(turn.room, FRAMES_PER_POLL))
        && var done := sendIndex == count && |sent| < |old(sent)| + FRAMES_PER_POLL;
           state == (if done then Idle else Sending) || (turn.aborts && state == Idle)
    {
      hide Decimated, Tiles, RowsIn, Carries;
      if state == Ready {
        Interrupts(turn.aborts);
        if !turn.metaTaken {
          return;
        }
        sendIndex := 0;
        state := Sending;
      }
      if state != Sending {
        return;
      }
      for frameCount := 0 to FRAMES_PER_POLL
        invariant Valid() && Rows() == old(Rows()) && count == target && frameCount <= turn.room
        invariant state == Sending || (turn.aborts && state == Idle)
        invariant old(sent) <= sent && |sent| == |old(sent)| + frameCount
        invariant sendIndex == Least(count, old(sendIndex) + SAMPLES_PER_FRAME * frameCount)
      {
        Interrupts(turn.aborts);
        if sendIndex >= count {
          state := Idle;
          return;
        }
        var ok := SendNext(turn.room - frameCount);
        if !ok {
          return;
        }
      }
    }

    // The next frame of up to four rows, if the link takes it.
    method SendNext(room: nat) returns (ok: bool)
      requires Valid() && state in {Sending, Idle} && count == target && sendIndex < count
      modifies this`sendIndex, this`sent
      ensures Valid() && Rows() == old(Rows()) && ok == (room > 0)
      ensures sendIndex == if ok then Least(count, old(sendIndex) + SAMPLES_PER_FRAME) else old(sendIndex)
      ensures old(sent) <= sent && |sent| == |old(sent)| + (if ok then 1 else 0)
    {
      hide Decimated, Tiles, RowsIn, Carries;
      var f := FillDataFrame();
      ghost var before := sent;
      ok := Send(f, room);
      if ok {
        TilesNext(before, Rows(), f);
        sendIndex := sendIndex + f.n;
      }
    }
  }

  // The row is sample (j + 1) * decimate.
  ghost predicate IsSample(row: Row, j: nat, pushed: seq<Sample>, decimate: nat)
  {
    0 < (j + 1) * decimate <= |pushed| && row == RowOf(pushed[(j + 1) * decimate - 1])
  }

  // Any run, from the start: at every moment the rows are the decimated
  // samples since the last arming, and the frames sent tile them.
  method Run(events: seq<Event>) returns (service: SnapshotService)
    requires forall i :: 0 <= i < |events| && events[i].Push? ==> |events[i].sample| == CHANNELS
    ensures fresh(service) && service.Valid()
    ensures Tiles(service.sent, service.Rows(), service.sendIndex)
    ensures forall j :: 0 <= j < service.count ==> IsSample(service.Rows()[j], j, service.pushed, service.decimate)
  {
    hide Decimated, Tiles, RowsIn;
    service := new SnapshotService();
    for i := 0 to |events|
      invariant fresh(service) && fresh(service.samples) && service.Valid()
    {
      match events[i] {
        case ArmRequest(count, decimate) => var _ := service.Arm(count, decimate);
        case Push(sample) => service.PushIsr(sample);
        case AbortRequest => service.Abort();
        case Poll(turn) => service.PollSend(turn);
      }
    }
    forall j: nat | j < service.count
      ensures IsSample(service.Rows()[j], j, service.pushed, service.decimate)
    {
      DecimatedAt(service.Rows(), service.pushed, service.decimate, j);
    }
  }

  lemma FrameCarries(samples: seq<int>, count: nat, f: Frame)
    requires CHANNELS * count <= |samples| && 0 < f.n <= SAMPLES_PER_FRAME && f.start + f.n <= count
    requires |f.words| == SAMPLES_PER_FRAME * CHANNELS
    requires forall w :: 0 <= w < f.n * CHANNELS ==> f.words[w] == samples[f.start * CHANNELS + w]
    requires forall w :: f.n * CHANNELS <= w < SAMPLES_PER_FRAME * CHANNELS ==> f.words[w] == 0
    ensures Carries(f, RowsIn(samples, count))
  {
    forall i | 0 <= i < f.n
      ensures f.words[CHANNELS * i..CHANNELS * i + CHANNELS] == RowsIn(samples, count)[f.start + i]
    {
      var row := RowsIn(samples, count)[f.start + i];
      assert row == samples[CHANNELS * (f.start + i)..CHANNELS * (f.start + i) + CHANNELS];
      forall c | 0 <= c < CHANNELS
        ensures f.words[CHANNELS * i..CHANNELS * i + CHANNELS][c] == row[c]
      {
        assert f.words[CHANNELS * i + c] == samples[f.start * CHANNELS + (CHANNELS * i + c)];
      }
    }
  }

  lemma TilesNext(frames: seq<Frame>, rows: seq<Row>, f: Frame)
    requires Tiles(frames, rows, f.start) && Carries(f, rows)
    requires f.n == SAMPLES_PER_FRAME || f.start + f.n == |rows|
    ensures Tiles(frames + [f], rows, f.start + f.n)
  {
    assert (frames + [f])[..|frames|] == frames;
  }

  lemma PartOfPrefix(s: seq<int>, m: nat, from: nat, to: nat)
    requires from <= to <= m <= |s|
    ensures s[from..to] == s[..m][from..to]
  {
  }

  lemma RowAdded(before: seq<int>, after: seq<int>, count: nat, sample: Sample)
    requires CHANNELS * (count + 1) <= |before| == |after| && |sample| == CHANNELS
    requires before[..CHANNELS * count] == after[..CHANNELS * count]
    requires forall c :: 0 <= c < CHANNELS ==> after[CHANNELS * count + c] == ToMilli16(sample[c])
    ensures RowsIn(after, count + 1) == RowsIn(before, count) + [RowOf(sample)]
  {
    hide ToMilli16, RowOf;
    forall j | 0 <= j < count
      ensures before[CHANNELS * j..CHANNELS * j + CHANNELS] == after[CHANNELS * j..CHANNELS * j + CHANNELS]
    {
      PartOfPrefix(before, CHANNELS * count, CHANNELS * j, CHANNELS * j + CHANNELS);
      PartOfPrefix(after, CHANNELS * count, CHANNELS * j, CHANNELS * j + CHANNELS);
    }
    var row := after[CHANNELS * count..CHANNELS * count + CHANNELS];
    forall c | 0 <= c < CHANNELS
      ensures row[c] == RowOf(sample)[c]
    {
      assert row[c] == after[CHANNELS * count + c] == ToMilli16(sample[c]);
    }
    assert row == RowOf(sample);
  }

  lemma RowEnd(count: nat, decimate: nat)
    ensures (count + 1) * decimate == count * decimate + decimate
  {
  }

  lemma NothingYet(samples: seq<int>, decimate: nat)
    ensures RowsIn(samples, 0) == [] && Decimated([], [], decimate) && Tiles([], [], 0)
  {
  }

  lemma TilesNothing(rows: seq<Row>)
    ensures Tiles([], rows, 0)
  {
  }

  lemma DecimatedNext(rows: seq<Row>, pushed: seq<Sample>, sample: Sample, decimate: nat)
    requires Decimated(rows, pushed, decimate) && decimate > 0 && |pushed| == (|rows| + 1) * decimate
    requires pushed[|pushed| - 1] == sample
    ensures Decimated(rows + [RowOf(sample)], pushed, decimate)
  {
    var more := rows + [RowOf(sample)];
    assert more[..|more| - 1] == rows;
    assert |more| * decimate == |pushed| > 0;
  }

  lemma CountBelow(count: nat, target: nat, decimate: nat, extra: nat)
    requires count < target && extra < decimate
    ensures (count + 1) * decimate == count * decimate + decimate <= target * decimate
    ensures count * decimate + extra + 1 == target * decimate <==> extra + 1 == decimate && count + 1 == target
  {
    MoreRows(target - count - 1, decimate);
    assert target * decimate == (count + 1) * decimate + (target - count - 1) * decimate;
  }

  lemma MoreRows(rows: nat, decimate: nat)
    ensures rows * decimate >= 0 && (rows > 0 ==> rows * decimate >= decimate)
  {
  }
}
