// The host's side of a snapshot: rows put back together from the frames that
// get through, in whatever order.
module SnapshotHost {
  import opened Snapshot

  // Frames of one capture, none of them twice.
  ghost predicate Genuine(frames: seq<Frame>, rows: seq<Row>)
  {
    && (forall i :: 0 <= i < |frames| ==> Carries(frames[i], rows))
    && forall i, j :: 0 <= i < j < |frames| ==> Apart(frames[i], frames[j])
  }

  predicate Apart(f: Frame, g: Frame)
  {
    f.start + f.n <= g.start || g.start + g.n <= f.start
  }

  // Tiling frames lie one after the other.
  lemma {:induction false} TilesApart(frames: seq<Frame>, rows: seq<Row>, end: nat, i: nat)
    requires Tiles(frames, rows, end) && i < |frames|
    ensures Carries(frames[i], rows) && frames[i].start + frames[i].n <= end
    ensures forall j :: i < j < |frames| ==> frames[i].start + frames[i].n <= frames[j].start
    decreases |frames|
  {
    hide Carries;
    var n := |frames| - 1;
    if i < n {
      TilesApart(frames[..n], rows, frames[n].start, i);
    }
  }

  // Whatever is lost or reordered of the frames sent, what arrives is genuine.
  lemma ReceivedGenuine(sent: seq<Frame>, rows: seq<Row>, end: nat, picks: seq<nat>, received: seq<Frame>)
    requires Tiles(sent, rows, end) && |received| == |picks|
    requires forall i :: 0 <= i < |picks| ==> picks[i] < |sent| && received[i] == sent[picks[i]]
    requires forall i, j :: 0 <= i < j < |picks| ==> picks[i] != picks[j]
    ensures Genuine(received, rows)
  {
    hide Tiles, Carries;
    forall i | 0 <= i < |received|
      ensures Carries(received[i], rows)
    {
      TilesApart(sent, rows, end, picks[i]);
    }
    forall i, j | 0 <= i < j < |received|
      ensures Apart(received[i], received[j])
    {
      TilesApart(sent, rows, end, picks[i]);
      TilesApart(sent, rows, end, picks[j]);
    }
  }

  function Range(n: nat): (s: set<int>)
    ensures |s| == n && forall i :: i in s <==> 0 <= i < n
  {
    if n == 0 then {} else Range(n - 1) + {n - 1}
  }

  lemma {:induction false} Subset(a: set<int>, b: set<int>)
    requires a <= b
    ensures |a| <= |b| && (|a| == |b| ==> a == b)
  {
    var rest := b - a;
    assert b == a + rest && |b| == |a| + |rest|;
    if |rest| == 0 {
      assert rest == {};
    }
  }

  // A frame as it comes off the wire, genuine or not.
  predicate WellFormed(f: Frame)
  {
    f.n <= SAMPLES_PER_FRAME && |f.words| == SAMPLES_PER_FRAME * CHANNELS
  }

  // Row `i` of the table holds the capture's row.
  ghost predicate Placed(table: array2<real>, i: int, row: Row)
    reads table
  {
    0 <= i < table.Length0 && table.Length1 == CHANNELS && |row| == CHANNELS
    && forall c :: 0 <= c < CHANNELS ==> table[i, c] == row[c] as real / 1000.0
  }

  method PlaceRow(words: seq<int>, base: nat, table: array2<real>, index: nat)
    requires base + CHANNELS <= |words| && index < table.Length0 && table.Length1 == CHANNELS
    modifies table
    ensures Placed(table, index, words[base..base + CHANNELS])
    ensures forall i, c :: 0 <= i < table.Length0 && 0 <= c < CHANNELS && i != index ==> table[i, c] == old(table[i, c])
  {
    for c := 0 to CHANNELS
      invariant forall k :: 0 <= k < c ==> table[index, k] == words[base + k] as real / 1000.0
      invariant forall i, k :: 0 <= i < table.Length0 && 0 <= k < CHANNELS && i != index ==> table[i, k] == old(table[i, k])
    {
      table[index, c] := words[base + c] as real / 1000.0;
    }
  }

  // How many rows of a frame have a place in a table of `n`.
  function Fits(f: Frame, n: nat): (m: nat)
  {
    if f.start + f.n <= n then f.n else if f.start < n then n - f.start else 0
  }

  function Counted(frames: seq<Frame>, n: nat): (m: nat)
  {
    if frames == [] then 0 else Counted(frames[..|frames| - 1], n) + Fits(frames[|frames| - 1], n)
  }

  lemma {:induction false} CountedMore(frames: seq<Frame>, n: nat, m: nat, k: nat)
    requires m <= k <= |frames|
    ensures Counted(frames[..m], n) <= Counted(frames[..k], n)
    ensures k < |frames| ==> Counted(frames[..k + 1], n) == Counted(frames[..k], n) + Fits(frames[k], n)
    decreases k - m
  {
    if k < |frames| {
      assert frames[..k + 1][..k] == frames[..k];
    }
    if m < k {
      CountedMore(frames, n, m, k - 1);
    }
  }

  lemma CountedNothing(frames: seq<Frame>, n: nat)
    ensures Counted(frames[..0], n) == 0
  {
  }

  // Copies the rows of one frame that fit, and counts them.
  method Place(f: Frame, table: array2<real>) returns (got: nat)
    requires WellFormed(f) && table.Length1 == CHANNELS
    modifies table
    ensures got == Fits(f, table.Length0)
    ensures forall i :: 0 <= i < f.n && f.start + i < table.Length0 ==>
      Placed(table, f.start + i, f.words[CHANNELS * i..CHANNELS * i + CHANNELS])
    ensures forall i, c :: 0 <= i < table.Length0 && 0 <= c < CHANNELS && !(f.start <= i < f.start + f.n) ==>
      table[i, c] == old(table[i, c])
  {
    got := 0;
    for i := 0 to f.n
      invariant got == if f.start + i <= table.Length0 then i else if f.start < table.Length0 then table.Length0 - f.start else 0
      invariant forall k :: 0 <= k < i && f.start + k < table.Length0 ==>
        Placed(table, f.start + k, f.words[CHANNELS * k..CHANNELS * k + CHANNELS])
      invariant forall k, c :: 0 <= k < table.Length0 && 0 <= c < CHANNELS && !(f.start <= k < f.start + i) ==>
        table[k, c] == old(table[k, c])
    {
      var index := f.start + i;
      if index < table.Length0 {
        PlaceRow(f.words, i * CHANNELS, table, index);
        got := got + 1;
      }
    }
  }

  // The rows of the capture that `covered` names are all in the table.
  ghost predicate Collected(table: array2<real>, rows: seq<Row>, covered: set<int>)
    reads table
  {
    covered <= Range(|rows|) && forall i :: i in covered ==> Placed(table, i, rows[i])
  }

  // Placing the rows of a frame again changes nothing.
  method PlaceCarried(f: Frame, table: array2<real>, ghost rows: seq<Row>, ghost covered: set<int>, ghost carried: bool)
    returns (got: nat, ghost now: set<int>)
    requires WellFormed(f) && table.Length1 == CHANNELS
    requires carried ==> Carries(f, rows) && |rows| == table.Length0 && Collected(table, rows, covered)
    modifies table
    ensures carried ==> Collected(table, rows, now)
    ensures now == covered + Stretch(f.start, f.n) && got == Fits(f, table.Length0)
    ensures forall i, c :: 0 <= i < table.Length0 && 0 <= c < CHANNELS && i !in now ==> table[i, c] == old(table[i, c])
  {
    hide Carries;
    got := Place(f, table);
    now := covered + Stretch(f.start, f.n);
    if carried {
      RowsPlaced(f, table, rows);
      forall i | i in covered
        ensures Placed(table, i, rows[i])
      {
        assert old(Placed(table, i, rows[i]));
        if i in Stretch(f.start, f.n) {
          assert Placed(table, i, rows[i]);
        }
      }
    }
  }

  lemma RowOfFrame(f: Frame, rows: seq<Row>, k: nat)
    requires Carries(f, rows) && k < f.n
    ensures |f.words| == SAMPLES_PER_FRAME * CHANNELS && f.start + f.n <= |rows|
    ensures f.words[CHANNELS * k..CHANNELS * k + CHANNELS] == rows[f.start + k]
  {
  }

  lemma RowsPlaced(f: Frame, table: array2<real>, rows: seq<Row>)
    requires Carries(f, rows) && |rows| == table.Length0 && WellFormed(f)
    requires forall i :: 0 <= i < f.n && f.start + i < table.Length0 ==>
      Placed(table, f.start + i, f.words[CHANNELS * i..CHANNELS * i + CHANNELS])
    ensures f.start + f.n <= |rows| && forall i :: i in Stretch(f.start, f.n) ==> Placed(table, i, rows[i])
  {
    assert f.start + f.n <= |rows|;
    hide Placed, Carries;
    forall i | i in Stretch(f.start, f.n)
      ensures Placed(table, i, rows[i])
    {
      RowOfFrame(f, rows, i - f.start);
      assert Placed(table, f.start + (i - f.start), f.words[CHANNELS * (i - f.start)..CHANNELS * (i - f.start) + CHANNELS]);
    }
  }

  function Stretch(start: int, n: nat): (s: set<int>)
    ensures |s| == n && forall i :: i in s <==> start <= i < start + n
  {
    if n == 0 then {} else Stretch(start, n - 1) + {start + n - 1}
  }

  lemma Disjoint(a: set<int>, b: set<int>)
    requires a !! b
    ensures |a + b| == |a| + |b|
  {
  }

  // The frames hold every one of `n` rows.
  ghost predicate Complete(frames: seq<Frame>, n: nat)
  {
    forall i :: 0 <= i < n ==> Among(frames, i)
  }

  ghost predicate Among(frames: seq<Frame>, i: int)
  {
    exists k :: 0 <= k < |frames| && frames[k].start <= i < frames[k].start + frames[k].n
  }

  lemma AmongNext(frames: seq<Frame>, f: Frame, i: int)
    ensures Among(frames + [f], i) <==> Among(frames, i) || i in Stretch(f.start, f.n)
    ensures !Among([], i)
  {
    var more := frames + [f];
    if Among(frames, i) {
      var k :| 0 <= k < |frames| && frames[k].start <= i < frames[k].start + frames[k].n;
      assert more[k] == frames[k];
    } else if i in Stretch(f.start, f.n) {
      assert more[|frames|] == f;
    }
  }

  // Every frame carries rows of the capture; frames may come twice.
  ghost predicate Carried(frames: seq<Frame>, rows: seq<Row>)
  {
    forall i :: 0 <= i < |frames| ==> Carries(frames[i], rows)
  }

  // How many of the first `limit` frames the host takes: it stops as soon as
  // it has counted `n` rows.
  function Used(queue: seq<Frame>, n: nat, limit: nat): (k: nat)
    requires limit <= |queue|
    ensures k <= limit && forall j :: 0 <= j < k ==> Counted(queue[..j], n) < n
    ensures k < limit ==> Counted(queue[..k], n) >= n
  {
    if limit == 0 then 0 else
    var k := Used(queue, n, limit - 1);
    if k < limit - 1 || Counted(queue[..k], n) >= n then k else limit
  }

  // The frames a capture is made of.
  function Taken(queue: seq<Frame>, n: nat, patience: nat): (frames: seq<Frame>)
  {
    queue[..Used(queue, n, Least(patience, |queue|))]
  }

  ghost predicate InPlace(table: array2<real>, rows: seq<Row>)
    reads table
  {
    forall i :: 0 <= i < |rows| ==> Placed(table, i, rows[i])
  }

  ghost predicate IsZero(row: Row)
  {
    |row| == CHANNELS && forall c :: 0 <= c < CHANNELS ==> row[c] == 0
  }

  // Collects frames until as many rows have been counted as announced, or
  // until the host gives up, whichever frames come and however often. Of a
  // capture's own frames, those taken put their rows in place and leave zeros
  // elsewhere, so the table is the capture exactly if every row that is not all
  // zeros is among them. If no frame comes twice, success says so.
  method CaptureSnap(n: nat, queue: seq<Frame>, patience: nat,
                     ghost rows: seq<Row>) returns (ok: bool, table: array2<real>)
    requires forall i :: 0 <= i < |queue| ==> WellFormed(queue[i])
    ensures fresh(table) && table.Length0 == n && table.Length1 == CHANNELS
    ensures ok <==> Counted(Taken(queue, n, patience), n) >= n
    ensures ok <==> Counted(queue[..Least(patience, |queue|)], n) >= n
    ensures forall i, c :: 0 <= i < n && 0 <= c < CHANNELS && !Among(Taken(queue, n, patience), i) ==> table[i, c] == 0.0
    ensures Carried(queue, rows) && |rows| == n ==>
      forall i :: 0 <= i < n && Among(Taken(queue, n, patience), i) ==> Placed(table, i, rows[i])
    ensures Carried(queue, rows) && |rows| == n ==>
      (InPlace(table, rows) <==> forall i :: 0 <= i < n ==> Among(Taken(queue, n, patience), i) || IsZero(rows[i]))
    ensures Genuine(queue, rows) && |rows| == n ==> (ok <==> Complete(queue[..Least(patience, |queue|)], n))
    ensures Genuine(queue, rows) && |rows| == n && ok ==> InPlace(table, rows)
  {
    hide Fits, Counted, Used;
    hide Placed, Carries, WellFormed, Among, Complete, Stretch, Apart, IsZero;
    table := new real[n, CHANNELS]((_, _) => 0.0);
    var got := 0;
    ghost var limit, covered: set<int> := Least(patience, |queue|), {};
    ghost var carried := Carried(queue, rows) && |rows| == n;
    ghost var genuine := Genuine(queue, rows) && |rows| == n;
    var next := 0;
    AmongNothing(queue);
    CountedNothing(queue, n);
    while got < n && next < |queue| && next < patience
      invariant next <= limit && next <= Used(queue, n, limit)
      invariant carried ==> Collected(table, rows, covered)
      invariant genuine ==> got == |covered|
      invariant genuine ==> forall k :: next <= k < |queue| ==> Stretch(queue[k].start, queue[k].n) !! covered
      invariant forall i :: i in covered <==> Among(queue[..next], i)
      invariant got == Counted(queue[..next], n)
      invariant forall i, c :: 0 <= i < n && 0 <= c < CHANNELS && i !in covered ==> table[i, c] == 0.0
    {
      if genuine {
        StillApart(queue, next, covered);
        Disjoint(covered, Stretch(queue[next].start, queue[next].n));
        AllFit(queue[next], rows);
      }
      CoveredNext(queue, next, covered);
      CountedMore(queue, n, next, next);
      var more;
      more, covered := PlaceCarried(queue[next], table, rows, covered, carried);
      got := got + more;
      next := next + 1;
    }
    ok := got >= n;
    CountedMore(queue, n, next, limit);
    assert next == Used(queue, n, limit);
    if carried {
      InPlaceExactly(table, rows, covered);
    }
    if genuine {
      AllCovered(queue, next, limit, covered, n);
    }
  }

  lemma AllFit(f: Frame, rows: seq<Row>)
    requires Carries(f, rows)
    ensures Fits(f, |rows|) == f.n
  {
  }

  // With zeros outside the covered rows, the other rows are right exactly if
  // they are zeros themselves.
  lemma InPlaceExactly(table: array2<real>, rows: seq<Row>, covered: set<int>)
    requires |rows| == table.Length0 && table.Length1 == CHANNELS && Collected(table, rows, covered)
    requires forall i, c :: 0 <= i < table.Length0 && 0 <= c < CHANNELS && i !in covered ==> table[i, c] == 0.0
    ensures InPlace(table, rows) <==> forall i :: 0 <= i < |rows| ==> i in covered || IsZero(rows[i])
  {
    forall i | 0 <= i < |rows| && i !in covered
      ensures Placed(table, i, rows[i]) <==> IsZero(rows[i])
    {
      if Placed(table, i, rows[i]) {
        forall c | 0 <= c < CHANNELS
          ensures rows[i][c] == 0
        {
          assert table[i, c] == rows[i][c] as real / 1000.0;
        }
      }
    }
  }

  lemma StillApart(queue: seq<Frame>, next: nat, covered: set<int>)
    requires next < |queue| && forall k :: next <= k < |queue| ==> Stretch(queue[k].start, queue[k].n) !! covered
    requires forall i, j :: 0 <= i < j < |queue| ==> Apart(queue[i], queue[j])
    ensures forall k :: next < k < |queue| ==>
      Stretch(queue[k].start, queue[k].n) !! covered + Stretch(queue[next].start, queue[next].n)
  {
    forall k | next < k < |queue|
      ensures Stretch(queue[k].start, queue[k].n) !! covered + Stretch(queue[next].start, queue[next].n)
    {
      ApartStretches(queue[next], queue[k]);
    }
  }

  lemma CoveredNext(queue: seq<Frame>, next: nat, covered: set<int>)
    requires next < |queue| && forall i :: i in covered <==> Among(queue[..next], i)
    ensures forall i :: i in covered + Stretch(queue[next].start, queue[next].n) <==> Among(queue[..next + 1], i)
  {
    hide Among;
    assert queue[..next + 1] == queue[..next] + [queue[next]];
    forall i
      ensures i in covered + Stretch(queue[next].start, queue[next].n) <==> Among(queue[..next + 1], i)
    {
      AmongNext(queue[..next], queue[next], i);
    }
  }

  lemma AmongNothing(queue: seq<Frame>)
    ensures forall i :: !Among(queue[..0], i)
  {
  }

  lemma AmongMore(frames: seq<Frame>, m: nat, n: nat, i: int)
    requires m <= n <= |frames| && Among(frames[..m], i)
    ensures Among(frames[..n], i)
  {
    var k :| 0 <= k < m && frames[..m][k].start <= i < frames[..m][k].start + frames[..m][k].n;
    assert frames[..n][k] == frames[..m][k];
  }

  // As many rows as announced are all of them.
  lemma AllCovered(queue: seq<Frame>, next: nat, limit: nat, covered: set<int>, n: nat)
    requires next <= limit <= |queue| && (|covered| < n ==> next == limit)
    requires (forall i :: i in covered <==> Among(queue[..next], i)) && (forall i :: i in covered ==> 0 <= i < n)
    ensures |covered| >= n <==> Complete(queue[..limit], n)
    ensures |covered| >= n ==> covered == Range(n)
  {
    hide Among;
    Subset(covered, Range(n));
    if next == limit && Complete(queue[..limit], n) {
      assert Range(n) <= covered;
      Subset(Range(n), covered);
    }
    if |covered| >= n {
      forall i | 0 <= i < n
        ensures Among(queue[..limit], i)
      {
        AmongMore(queue, next, limit, i);
      }
    }
  }

  // Row `i` of the table is the capture's sample (i + 1) * decimate.
  ghost predicate HoldsSample(table: array2<real>, i: nat, pushed: seq<Sample>, decimate: nat)
    reads table
  {
    0 < (i + 1) * decimate <= |pushed| && Placed(table, i, RowOf(pushed[(i + 1) * decimate - 1]))
  }

  // A whole snapshot: whatever is lost, reordered or repeated of the frames a
  // service sent, row i of those taken holds sample (i + 1) * decimate. If none
  // comes twice, success means all rows do.
  method Snap(service: SnapshotService, ghost picks: seq<nat>, queue: seq<Frame>, patience: nat)
    returns (ok: bool, table: array2<real>)
    requires service.Valid() && |queue| == |picks|
    requires forall i :: 0 <= i < |picks| ==> picks[i] < |service.sent| && queue[i] == service.sent[picks[i]]
    ensures fresh(table) && table.Length0 == service.count && table.Length1 == CHANNELS
    ensures ok <==> Counted(Taken(queue, service.count, patience), service.count) >= service.count
    ensures forall i :: 0 <= i < service.count && Among(Taken(queue, service.count, patience), i) ==>
      HoldsSample(table, i, service.pushed, service.decimate)
    ensures InPlace(table, service.Rows()) <==>
      forall i :: 0 <= i < service.count ==> Among(Taken(queue, service.count, patience), i) || IsZero(service.Rows()[i])
    ensures Distinct(picks) ==> (ok <==> Complete(queue[..Least(patience, |queue|)], service.count))
    ensures Distinct(picks) && ok ==>
      forall i :: 0 <= i < service.count ==> HoldsSample(table, i, service.pushed, service.decimate)
  {
    hide Placed, Carries, Decimated, Tiles, Complete, RowsIn, Among, IsZero, Counted, Used, Taken, HoldsSample;
    ghost var rows, n := service.Rows(), service.count;
    ReceivedCarried(service.sent, rows, service.sendIndex, picks, queue);
    if Distinct(picks) {
      ReceivedGenuine(service.sent, rows, service.sendIndex, picks, queue);
    }
    CarriedFormed(queue, rows);
    ok, table := CaptureSnap(service.count, queue, patience, rows);
    forall i: nat | i < n && Placed(table, i, rows[i])
      ensures HoldsSample(table, i, service.pushed, service.decimate)
    {
      PlacedIsSample(table, rows, service.pushed, service.decimate, i);
    }
  }

  predicate Distinct(picks: seq<nat>)
  {
    forall i, j :: 0 <= i < j < |picks| ==> picks[i] != picks[j]
  }

  lemma PlacedIsSample(table: array2<real>, rows: seq<Row>, pushed: seq<Sample>, decimate: nat, i: nat)
    requires Decimated(rows, pushed, decimate) && i < |rows| && Placed(table, i, rows[i])
    ensures HoldsSample(table, i, pushed, decimate)
  {
    hide Placed, Decimated;
    DecimatedAt(rows, pushed, decimate, i);
  }

  lemma ReceivedCarried(sent: seq<Frame>, rows: seq<Row>, end: nat, picks: seq<nat>, received: seq<Frame>)
    requires Tiles(sent, rows, end) && |received| == |picks|
    requires forall i :: 0 <= i < |picks| ==> picks[i] < |sent| && received[i] == sent[picks[i]]
    ensures Carried(received, rows)
  {
    hide Tiles, Carries;
    forall i | 0 <= i < |received|
      ensures Carries(received[i], rows)
    {
      TilesApart(sent, rows, end, picks[i]);
    }
  }

  lemma CarriedFormed(queue: seq<Frame>, rows: seq<Row>)
    requires Carried(queue, rows)
    ensures forall i :: 0 <= i < |queue| ==> WellFormed(queue[i])
  {
  }

  lemma ApartStretches(f: Frame, g: Frame)
    requires Apart(f, g)
    ensures Stretch(f.start, f.n) !! Stretch(g.start, g.n)
  {
  }

  // Tiling frames count the rows they carry.
  lemma {:induction false} TilesCounted(frames: seq<Frame>, rows: seq<Row>, end: nat)
    requires Tiles(frames, rows, end)
    ensures Counted(frames, |rows|) == end
  {
    hide Carries;
    if frames != [] {
      var n := |frames| - 1;
      TilesCounted(frames[..n], rows, frames[n].start);
      AllFit(frames[n], rows);
    }
  }

  // More than four rows take at least two frames, of which the first is full.
  lemma TwoFrames(sent: seq<Frame>, rows: seq<Row>)
    requires Tiles(sent, rows, |rows|) && |rows| > SAMPLES_PER_FRAME
    ensures |sent| >= 2 && sent[0].n == SAMPLES_PER_FRAME
    ensures var last := sent[|sent| - 1]; last.start + last.n == |rows| && 0 < last.n <= SAMPLES_PER_FRAME
    ensures Tiles(sent[..|sent| - 1], rows, sent[|sent| - 1].start)
    ensures forall k :: 0 <= k < |sent| - 1 ==> sent[k].start + sent[k].n <= sent[|sent| - 1].start
  {
    var m := |sent| - 1;
    TilesFull(sent, rows, |rows|, 0);
    forall k | 0 <= k < m
      ensures sent[k].start + sent[k].n <= sent[m].start
    {
      TilesApart(sent, rows, |rows|, k);
    }
  }

  lemma {:induction false} TilesFull(frames: seq<Frame>, rows: seq<Row>, end: nat, i: nat)
    requires Tiles(frames, rows, end) && i < |frames| - 1
    ensures frames[i].n == SAMPLES_PER_FRAME
    decreases |frames|
  {
    hide Carries;
    var n := |frames| - 1;
    if i < n - 1 {
      TilesFull(frames[..n], rows, frames[n].start, i);
    } else {
      LastCarries(frames[n], rows);
      assert frames[..n][n - 1] == frames[i];
    }
  }

  lemma LastCarries(f: Frame, rows: seq<Row>)
    requires Carries(f, rows)
    ensures f.start < f.start + f.n <= |rows|
  {
  }

  // Rows are counted, not remembered. Of every capture of more than four rows,
  // let the last frame be lost and the first come twice: the host reports
  // success, and the last rows are zeros.
  method DuplicateFools(service: SnapshotService, queue: seq<Frame>, patience: nat) returns (ok: bool, table: array2<real>)
    requires service.Valid() && service.sendIndex == service.count > SAMPLES_PER_FRAME && service.sent != []
    requires queue == service.sent[..|service.sent| - 1] + [service.sent[0]] && patience >= |queue|
    ensures ok && table.Length0 == service.count && table.Length1 == CHANNELS && |service.sent| >= 2
    ensures var lost := service.sent[|service.sent| - 1].start;
      && lost < service.count
      && forall i, c :: lost <= i < service.count && 0 <= c < CHANNELS ==> table[i, c] == 0.0
  {
    hide Carries, Decimated, Tiles, RowsIn, Counted, Used, Among, Taken, Placed, IsZero;
    ghost var rows := service.Rows();
    ghost var sent, m := service.sent, |service.sent| - 1;
    TwoFrames(sent, rows);
    ghost var picks := seq<nat>(m + 1, i requires 0 <= i <= m => if i < m then i else 0);
    ReceivedCarried(sent, rows, service.sendIndex, picks, queue);
    CarriedFormed(queue, rows);
    TilesCounted(sent[..m], rows, sent[m].start);
    CountedMore(queue, service.count, m, m);
    AllFit(queue[m], rows);
    assert queue[..m] == sent[..m] && queue[..m + 1] == queue == queue[..Least(patience, |queue|)];
    ok, table := CaptureSnap(service.count, queue, patience, rows);
    forall i | sent[m].start <= i
      ensures !Among(Taken(queue, service.count, patience), i)
    {
      LostNotTaken(sent, queue, service.count, patience, i);
    }
  }

  lemma LostNotTaken(sent: seq<Frame>, queue: seq<Frame>, n: nat, patience: nat, i: int)
    requires |sent| >= 2 && queue == sent[..|sent| - 1] + [sent[0]] && sent[|sent| - 1].start <= i
    requires forall k :: 0 <= k < |sent| - 1 ==> sent[k].start + sent[k].n <= sent[|sent| - 1].start
    ensures !Among(Taken(queue, n, patience), i)
  {
    hide Counted, Used;
    var taken := Taken(queue, n, patience);
    forall k | 0 <= k < |taken|
      ensures !(taken[k].start <= i < taken[k].start + taken[k].n)
    {
      assert taken[k] == queue[k] == sent[if k < |sent| - 1 then k else 0];
    }
  }
}
