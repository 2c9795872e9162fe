// The flashing host: one command at a time over a link that loses frames to a
// bootloader whose supply may fail at any time, whole pages retried after any
// failure, and everything read back at the end.
module FlashHost {
  import opened Octets
  import opened NorFlash
  import opened FlashWriter
  import opened Codec
  import opened CommandLine
  import opened CommandServer
  import opened Buffers
  import opened HostText
  import opened Bootloader
  import opened ReadStream
  import opened Exchange

  const HOST_ID: int := 0
  const BOOT_ID: int := 1
  const SAFE_WRITE_SIZE: nat := 8
  const PAGE_WRITE_ATTEMPTS: nat := 5
  const VERIFY_ATTEMPTS: nat := 5
  const MAX_IMAGE: nat := 0x7_0000

  // ---- Frames ----------------------------------------------------------------

  function BuildWrite(data: seq<Byte>): (f: seq<Byte>)
  {
    EncodeVaruint(CLIENT_TO_SERVER) + EncodeVaruint(TUNNEL_CHANNEL) + EncodeVaruint(|data|) + data
  }

  function BuildPoll(limit: nat): (f: seq<Byte>)
  {
    EncodeVaruint(CLIENT_POLL_SERVER) + EncodeVaruint(TUNNEL_CHANNEL) + EncodeVaruint(limit)
  }

  // The payload of a response frame; None stands for the error raised.
  function ParseResponse(data: seq<Byte>): (r: Option<seq<Byte>>)
  {
    var (subframe, p) := HostVaruint(data);
    var (channel, q) := HostVaruint(data[p..]);
    var (length, r) := HostVaruint(data[p + q..]);
    if subframe != Some(SERVER_TO_CLIENT) || channel != Some(TUNNEL_CHANNEL) || length.None? then None
    else if p + q + r + length.value > |data| then None
    else Some(data[p + q + r..p + q + r + length.value])
  }

  lemma ThreeSmall(a: nat, b: nat, c: nat, rest: seq<Byte>)
    requires a < 128 && b < 128 && c < 128
    ensures var s := EncodeVaruint(a) + EncodeVaruint(b) + EncodeVaruint(c) + rest;
      && |s| == 3 + |rest| && s[3..] == rest
      && DeviceVaruint(s) == HostVaruint(s) == (Some(a), 1)
      && DeviceVaruint(s[1..]) == HostVaruint(s[1..]) == (Some(b), 1)
      && DeviceVaruint(s[2..]) == HostVaruint(s[2..]) == (Some(c), 1)
  {
    hide DeviceVaruint, HostVaruint, EncodeVaruint;
    SmallVaruint(a);
    SmallVaruint(b);
    SmallVaruint(c);
    var s := EncodeVaruint(a) + EncodeVaruint(b) + EncodeVaruint(c) + rest;
    assert s == [a as Byte, b as Byte, c as Byte] + rest;
    SmallReads(s);
    SmallReads(s[1..]);
    SmallReads(s[2..]);
  }

  lemma SmallReads(s: seq<Byte>)
    requires s != [] && s[0] < 128
    ensures DeviceVaruint(s) == HostVaruint(s) == (Some(s[0] as int), 1)
  {
    assert s[..1] == [s[0]] && Groups([s[0]]) == s[0] as int + 128 * Groups([]);
  }

  // Both ends take frames apart as the other put them together, whatever
  // bytes the CAN controller pads them with.
  lemma WriteFrameDecodes(payload: seq<Byte>, pad: seq<Byte>)
    requires |payload| < 128
    ensures Decode(BOOT_ID, Frame(HOST_ID, BOOT_ID, BuildWrite(payload) + pad)) == Tunnel(payload, false)
  {
    hide DeviceVaruint, EncodeVaruint;
    var s := EncodeVaruint(CLIENT_TO_SERVER) + EncodeVaruint(TUNNEL_CHANNEL) + EncodeVaruint(|payload|) + (payload + pad);
    assert BuildWrite(payload) + pad == s;
    ThreeSmall(CLIENT_TO_SERVER, TUNNEL_CHANNEL, |payload|, payload + pad);
    assert s[3..3 + |payload|] == s[3..][..|payload|] == payload;
  }

  lemma PollFrameDecodes(limit: nat, pad: seq<Byte>)
    requires limit < 128
    ensures Decode(BOOT_ID, Frame(HOST_ID + 128, BOOT_ID, BuildPoll(limit) + pad)) == Poll(limit, true)
  {
    hide DeviceVaruint, EncodeVaruint;
    ThreeSmall(CLIENT_POLL_SERVER, TUNNEL_CHANNEL, limit, pad);
  }

  lemma ResponseFrameParses(payload: seq<Byte>, pad: seq<Byte>)
    requires |payload| <= MAX_PAYLOAD
    ensures ParseResponse(ResponseFrame(payload) + pad) == Some(payload)
    ensures |ResponseFrame(payload)| <= 64
  {
    hide HostVaruint, EncodeVaruint;
    var s := EncodeVaruint(SERVER_TO_CLIENT) + EncodeVaruint(TUNNEL_CHANNEL) + EncodeVaruint(|payload|) + (payload + pad);
    assert ResponseFrame(payload) + pad == s;
    ThreeSmall(SERVER_TO_CLIENT, TUNNEL_CHANNEL, |payload|, payload + pad);
    assert s[3..3 + |payload|] == s[3..][..|payload|] == payload;
  }

  // ---- Block images ----------------------------------------------------------

  // The page after its first bytes have been written in this session.
  function PageImage(cells: seq<Byte>, page: nat, data: seq<Byte>): (r: seq<Byte>)
    ensures |r| == |cells|
    ensures forall i :: 0 <= i < |cells| ==>
      (r[i] == if data == [] || i / PAGE_SIZE != page then cells[i]
               else if i % PAGE_SIZE < |data| then data[i % PAGE_SIZE] else ERASED)
  {
    seq<Byte>(|cells|, i requires 0 <= i < |cells| =>
      if data == [] || i / PAGE_SIZE != page then cells[i]
      else if i % PAGE_SIZE < |data| then data[i % PAGE_SIZE] else ERASED)
  }

  lemma ByteExtends(cells: seq<Byte>, touched: set<int>, page: nat, data: seq<Byte>, b: Byte)
    requires page * PAGE_SIZE + PAGE_SIZE <= |cells| && |data| < PAGE_SIZE && (page in touched <==> data != [])
    ensures Store(PageImage(cells, page, data), touched, Write(page * PAGE_SIZE + |data|, b))
      == PageImage(cells, page, data + [b])
  {
    var w := Write(page * PAGE_SIZE + |data|, b);
    assert w.offset / PAGE_SIZE == page && w.offset % PAGE_SIZE == |data|;
    forall i | 0 <= i < |cells|
      ensures Store(PageImage(cells, page, data), touched, w)[i] == PageImage(cells, page, data + [b])[i]
    {
      if i / PAGE_SIZE == page && i % PAGE_SIZE == |data| {
        assert i == w.offset;
      }
    }
  }

  // Storing the next bytes of a page extends its image.
  lemma {:induction false} BlockExtends(p: Promise, cells: seq<Byte>, page: nat, data: seq<Byte>, block: seq<Byte>)
    requires |cells| == |p.image| && page * PAGE_SIZE + PAGE_SIZE <= |cells|
    requires |data| + |block| <= PAGE_SIZE
    requires p.image == PageImage(cells, page, data) && (page in p.touched <==> data != [])
    ensures var r := NextAll(p, BlockWrites(page * PAGE_SIZE + |data|, block));
      && r.image == PageImage(cells, page, data + block)
      && r.touched == p.touched + (if block == [] then {} else {page})
  {
    hide PageImage, Store, Advance;
    var start := page * PAGE_SIZE + |data|;
    if block == [] {
      assert data + block == data;
    } else {
      var n := |block| - 1;
      var before := NextAll(p, BlockWrites(start, block[..n]));
      BlockExtends(p, cells, page, data, block[..n]);
      assert BlockWrites(start, block)[..n] == BlockWrites(start, block[..n]);
      ByteExtends(cells, before.touched, page, data + block[..n], block[n]);
      assert data + block == (data + block[..n]) + [block[n]];
      assert (start + n) / PAGE_SIZE == page;
    }
  }

  // Whole double-words leave nothing open.
  lemma {:induction false} BlockInStep(p: Promise, offset: nat, block: seq<Byte>)
    requires offset + |block| <= |p.image| && InStep(p.cursor, offset)
    ensures InStep(NextAll(p, BlockWrites(offset, block)).cursor, offset + |block|)
  {
    hide Store, Advance, InStep, Lanes;
    if block != [] {
      var n := |block| - 1;
      BlockInStep(p, offset, block[..n]);
      assert BlockWrites(offset, block)[..n] == BlockWrites(offset, block[..n]);
      AdvanceInStep(NextAll(p, BlockWrites(offset, block[..n])).cursor, offset + n);
    }
  }

  // What the session holds while the page is being written: the page's first
  // bytes, and otherwise what was there when the attempt began.
  ghost predicate Underway(v: Session, cells: seq<Byte>, others: set<int>, page: nat, data: seq<Byte>)
  {
    && v.Ok() && |cells| == FLASH_SIZE && page !in others
    && v.Image() == PageImage(cells, page, data)
    && v.Touched() == others + (if data == [] then {} else {page})
  }

  lemma BlockUnderway(v: Session, v': Session, cells: seq<Byte>, others: set<int>, page: nat, data: seq<Byte>,
                      block: seq<Byte>)
    requires page < PAGES && |data| + |block| <= PAGE_SIZE && v'.Ok() && Underway(v, cells, others, page, data)
    requires SoFar(v, v', FLASH_START + page * PAGE_SIZE + |data|, block)
    ensures Underway(v', cells, others, page, data + block)
  {
    hide Session.Image, Session.Touched, Session.Clean, Session.Ready;
    if block == [] {
      assert data + block == data;
    } else {
      BlockExtends(PromiseOf(v), cells, page, data, block);
      assert PromiseOf(v') == NextAll(PromiseOf(v), BlockWrites(page * PAGE_SIZE + |data|, block));
    }
  }

  // On a double-word boundary, in step means nothing open.
  lemma InStepAligned(c: Cursor, offset: nat)
    requires offset % 8 == 0 && (c.open == -1 ==> c.filled == {})
    ensures InStep(c, offset) <==> c.open == -1
  {
    assert Lanes(0) == {};
  }

  lemma BlockInFlash(v: Session, v': Session, address: nat, block: seq<Byte>)
    requires v.Ok() && v'.Ok() && block != [] && SoFar(v, v', address, block)
    ensures FLASH_START <= address && address + |block| <= FLASH_END
    ensures PromiseOf(v') == NextAll(PromiseOf(v), BlockWrites(address - FLASH_START, block))
  {
    hide NextAll, Session.Clean, Session.Ready, Session.Image, Session.Touched;
    assert InApp(BlockWrites(address - FLASH_START, block)[|block| - 1]);
  }

  // A block of whole double-words leaves none of its bytes in the shadow.
  lemma BlockCloses(v: Session, v': Session, address: nat, block: seq<Byte>)
    requires v.Ok() && v'.Ok() && v.open == -1 && SoFar(v, v', address, block)
    requires address % 8 == 0 && |block| % 8 == 0
    ensures v'.open == -1
  {
    hide Session.Image, Session.Touched, Session.Clean, Session.Ready, NextAll, BlockWrites, InStep;
    if block != [] {
      BlockInFlash(v, v', address, block);
      hide SoFar;
      InStepAligned(v.Position(), address - FLASH_START);
      BlockInStep(PromiseOf(v), address - FLASH_START, block);
      InStepAligned(v'.Position(), address - FLASH_START + |block|);
    }
  }

  lemma NothingOpen(v: Session)
    requires v.Ok() && v.open == -1
    ensures v.Image() == v.cells
  {
  }

  // The two memories agree outside one page, so writing all of it gives the same.
  lemma SamePageImage(cells: seq<Byte>, cells': seq<Byte>, page: nat, data: seq<Byte>)
    requires SamePages(cells, cells', {page}) && data != []
    ensures PageImage(cells', page, data) == PageImage(cells, page, data)
  {
  }

  // Flash with `data` as its application: the rest of the last page is all
  // ones, every other page as it was.
  function Flashed(cells: seq<Byte>, data: seq<Byte>): (r: seq<Byte>)
    ensures |r| == |cells|
    ensures forall i :: 0 <= i < |cells| ==>
      (r[i] == if i < APP || |data| <= (i - APP) / PAGE_SIZE * PAGE_SIZE then cells[i]
               else if i - APP < |data| then data[i - APP] else ERASED)
  {
    seq<Byte>(|cells|, i requires 0 <= i < |cells| =>
      if i < APP || |data| <= (i - APP) / PAGE_SIZE * PAGE_SIZE then cells[i]
      else if i - APP < |data| then data[i - APP] else ERASED)
  }

  // Page by page, the application grows.
  lemma FlashedNext(cells: seq<Byte>, data: seq<Byte>, pages: nat, next: nat)
    requires pages * PAGE_SIZE < next <= |data| && next <= (pages + 1) * PAGE_SIZE
    requires next < (pages + 1) * PAGE_SIZE ==> next == |data|
    ensures PageImage(Flashed(cells, data[..pages * PAGE_SIZE]), APP / PAGE_SIZE + pages, data[pages * PAGE_SIZE..next])
      == Flashed(cells, data[..next])
  {
    var off := pages * PAGE_SIZE;
    forall i | 0 <= i < |cells|
      ensures PageImage(Flashed(cells, data[..off]), APP / PAGE_SIZE + pages, data[off..next])[i]
        == Flashed(cells, data[..next])[i]
    {
      if i >= APP {
        var q := (i - APP) / PAGE_SIZE;
        assert i / PAGE_SIZE == APP / PAGE_SIZE + q && i % PAGE_SIZE == i - APP - q * PAGE_SIZE;
      }
    }
  }

  lemma VectorFlashed(cells: seq<Byte>, page: seq<Byte>)
    requires |cells| == FLASH_SIZE && 8 <= |page| <= PAGE_SIZE && BootImage(page)
    ensures Boots(PageImage(cells, APP / PAGE_SIZE, page))
  {
    hide BootVector, PageImage;
    VectorOfPage(cells, page);
  }

  // The first page of a guarded image.
  lemma FirstPage(cells: seq<Byte>, data: seq<Byte>, end: nat, sags: int)
    requires |cells| == FLASH_SIZE && end == Min(PAGE_SIZE, |data|)
    ensures Guarded(data) ==> BootImage(data[0..end]) && Boots(PageImage(cells, APP / PAGE_SIZE, data[0..end]))
    ensures Guarded(data) && sags < PAGE_WRITE_ATTEMPTS ==> end > FOOLED * sags
  {
    hide BootVector, PageImage, Boots;
    if Guarded(data) {
      assert data[0..end][..8] == data[..8];
      VectorFlashed(cells, data[0..end]);
    }
  }

  lemma AstrayBootsNot(v: Session)
    requires v.Ok()
    ensures Astray(v) ==> v.open == -1 && !Boots(v.cells)
  {
  }

  lemma FlashedImage(cells: seq<Byte>, image: seq<Byte>)
    requires APP + |image| <= |cells|
    ensures Flashed(cells, image)[APP..APP + |image|] == image
  {
    forall i | 0 <= i < |image|
      ensures Flashed(cells, image)[APP + i] == image[i]
    {
      assert (APP + i - APP) / PAGE_SIZE * PAGE_SIZE <= i;
    }
  }

  lemma SliceOfImage(cells: seq<Byte>, image: seq<Byte>, from: nat, to: nat)
    requires APP + |image| <= |cells| && cells[APP..APP + |image|] == image && from <= to <= |image|
    ensures cells[APP + from..APP + to] == image[from..to]
  {
    forall i | from <= i < to
      ensures cells[APP + i] == image[i]
    {
      assert cells[APP..APP + |image|][i] == cells[APP + i];
    }
  }

  lemma SliceExtends(cells: seq<Byte>, image: seq<Byte>, from: nat, to: nat)
    requires APP + |image| <= |cells| && from <= to <= |image|
    requires cells[APP..APP + from] == image[..from] && cells[APP + from..APP + to] == image[from..to]
    ensures cells[APP..APP + to] == image[..to]
  {
    assert image[..to] == image[..from] + image[from..to];
    assert cells[APP..APP + to] == cells[APP..APP + from] + cells[APP + from..APP + to];
  }

  lemma NoPageBetween(n: nat, padded: nat, q: nat)
    requires n <= padded < n + 8 && padded % 8 == 0
    ensures n <= q * PAGE_SIZE <==> padded <= q * PAGE_SIZE
  {
    var limit := 8 * (256 * q);
    assert q * PAGE_SIZE == limit;
    assert padded == 8 * (padded / 8);
  }

  // Padding the last double-word with ones changes nothing.
  lemma PaddingErased(cells: seq<Byte>, image: seq<Byte>, pad: seq<Byte>)
    requires |pad| < 8 && (|image| + |pad|) % 8 == 0 && forall i :: 0 <= i < |pad| ==> pad[i] == ERASED
    ensures Flashed(cells, image + pad) == Flashed(cells, image)
  {
    forall i | 0 <= i < |cells|
      ensures Flashed(cells, image + pad)[i] == Flashed(cells, image)[i]
    {
      if i >= APP {
        NoPageBetween(|image|, |image| + |pad|, (i - APP) / PAGE_SIZE);
      }
    }
  }

  // No page outside the application's first `n` bytes changed.
  ghost predicate OnlyApp(cells: seq<Byte>, cells': seq<Byte>, n: nat)
  {
    && |cells'| == |cells|
    && forall i :: 0 <= i < |cells| && (i < APP || n <= (i - APP) / PAGE_SIZE * PAGE_SIZE) ==> cells'[i] == cells[i]
  }

  lemma OnlyAppPage(cells: seq<Byte>, a: seq<Byte>, b: seq<Byte>, pages: nat, next: nat)
    requires OnlyApp(cells, a, pages * PAGE_SIZE) && SamePages(a, b, {APP / PAGE_SIZE + pages})
    requires pages * PAGE_SIZE < next
    ensures OnlyApp(cells, b, next)
  {
    forall i | 0 <= i < |cells| && (i < APP || next <= (i - APP) / PAGE_SIZE * PAGE_SIZE)
      ensures b[i] == cells[i]
    {
      if i >= APP {
        var q := (i - APP) / PAGE_SIZE;
        assert i / PAGE_SIZE == APP / PAGE_SIZE + q;
      }
    }
  }

  // ---- The weather -------------------------------------------------------------

  // An image the bootloader would start, and more of it in the first page than
  // four supply failures can make the host take for written.
  predicate Guarded(image: seq<Byte>)
  {
    BootImage(image) && |image| > (PAGE_WRITE_ATTEMPTS - 1) * FOOLED
  }

  // The faults met up to the end of each phase.
  predicate Marked(marks: seq<nat>, first: nat, last: nat)
  {
    && marks != [] && marks[0] == first && marks[|marks| - 1] == last
    && forall k :: 0 <= k < |marks| - 1 ==> marks[k] <= marks[k + 1]
  }

  // No page met as many faults as there are attempts.
  predicate Endured(marks: seq<nat>)
  {
    forall k :: 0 <= k < |marks| - 1 ==> marks[k + 1] < marks[k] + PAGE_WRITE_ATTEMPTS
  }

  // Only the pages met faults.
  predicate Bearable(marks: seq<nat>, begin: Weather, end: Weather, image: seq<Byte>)
    requires marks != []
  {
    Fair(marks, begin, end, image) && marks[0] == begin.faults && marks[|marks| - 1] == end.faults
  }

  lemma NothingMarked(faults: nat)
    ensures Marked([faults], faults, faults)
  {
  }

  lemma CalmBearable(marks: seq<nat>, begin: Weather, end: Weather, image: seq<Byte>)
    requires marks != [] && Marked(marks, marks[0], marks[|marks| - 1])
    requires begin.faults <= marks[0] && marks[|marks| - 1] <= end.faults
    ensures begin == end ==> Bearable(marks, begin, end, image)
  {
    Rising(marks, 0, |marks| - 1);
    if begin == end {
      forall k | 0 <= k < |marks| - 1
        ensures marks[k + 1] == marks[k]
      {
        Rising(marks, 0, k);
        Rising(marks, k + 1, |marks| - 1);
      }
    }
  }

  lemma {:induction false} Rising(marks: seq<nat>, i: nat, j: nat)
    requires marks != [] && Marked(marks, marks[0], marks[|marks| - 1]) && i <= j < |marks|
    ensures marks[i] <= marks[j]
    decreases j - i
  {
    if i < j {
      Rising(marks, i, j - 1);
      assert marks[j - 1] <= marks[j - 1 + 1];
    }
  }

  // No page met five faults, and no restart can have gone unnoticed.
  predicate Fair(marks: seq<nat>, begin: Weather, end: Weather, image: seq<Byte>)
  {
    Endured(marks) && (end.sags == begin.sags || Guarded(image))
  }

  lemma FairNext(marks: seq<nat>, begin: Weather, now: Weather, next: Weather, image: seq<Byte>)
    requires Marked(marks, begin.faults, now.faults) && Later(begin, now) && Later(now, next)
    ensures Marked(marks + [next.faults], begin.faults, next.faults)
    ensures Fair(marks + [next.faults], begin, next, image) ==>
      && Fair(marks, begin, now, image) && next.faults < now.faults + PAGE_WRITE_ATTEMPTS
      && (next.sags == now.sags || Guarded(image)) && next.sags - now.sags < PAGE_WRITE_ATTEMPTS
  {
    hide Guarded;
    MarkedNext(marks, begin.faults, next.faults);
  }

  lemma MarkedNext(marks: seq<nat>, first: nat, next: nat)
    requires marks != [] && Marked(marks, first, marks[|marks| - 1]) && marks[|marks| - 1] <= next
    ensures Marked(marks + [next], first, next)
    ensures Endured(marks + [next]) <==> Endured(marks) && next < marks[|marks| - 1] + PAGE_WRITE_ATTEMPTS
  {
    var more := marks + [next];
    assert more[|marks| - 1] == marks[|marks| - 1] && more[|marks|] == next;
    assert forall k :: 0 <= k < |marks| ==> more[k] == marks[k];
    if Endured(more) {
      forall k | 0 <= k < |marks| - 1
        ensures marks[k + 1] < marks[k] + PAGE_WRITE_ATTEMPTS
      {
        assert more[k + 1] < more[k] + PAGE_WRITE_ATTEMPTS;
      }
    }
  }

  // What has gone wrong so far: frames lost, replies not waited for, and
  // supply failures.
  datatype Weather = Weather(faults: nat, sags: nat)
  {
    function Lost(): (w: Weather)
    {
      Weather(faults + 1, sags)
    }

    function Sagged(): (w: Weather)
    {
      Weather(faults + 1, sags + 1)
    }
  }

  // What the surroundings do next: nothing, fail the supply, lose a request or
  // an answer, fail the supply while a line is executed, or leave time for a
  // few polls only.
  datatype Event = Calm | SupplyFails | RequestLost | AnswerLost | PowerCut | Hurry(polls: nat)

  function Felt(w: Weather, e: Event): (r: Weather)
  {
    match e
    case Calm => w
    case SupplyFails | PowerCut => w.Sagged()
    case RequestLost | AnswerLost | Hurry(_) => w.Lost()
  }

  // What has gone wrong in the first `n` events.
  function Counted(events: nat -> Event, n: nat): (w: Weather)
  {
    if n == 0 then Weather(0, 0) else Felt(Counted(events, n - 1), events(n - 1))
  }

  predicate Later(a: Weather, b: Weather)
  {
    a.faults <= b.faults && a.sags <= b.sags <= a.sags + (b.faults - a.faults)
  }

  // A session just opened takes a page from its first byte on.
  lemma OpenedAppends(v: Session, offset: nat)
    requires v.Ok() && Opened(v) && v.healthy && offset % 8 == 0
    ensures Appends(v, offset)
  {
    hide Session.Ready;
    FreshAppends(v, offset);
  }

  lemma AppendsNotAstray(v: Session, offset: nat)
    requires v.Ok()
    ensures Appends(v, offset) ==> !Astray(v)
    ensures Opened(v) ==> !Astray(v)
  {
    hide Session.Ready, Boots;
  }

  lemma VectorInPlace(v: Session, cells: seq<Byte>, others: set<int>, data: seq<Byte>)
    requires Underway(v, cells, others, APP / PAGE_SIZE, data) && v.open == -1 && 8 <= |data| <= PAGE_SIZE
    ensures v.erased[VECTOR / 256] && v.cells[APP..APP + 8] == data[..8]
  {
    NothingOpen(v);
    TouchedErased(v);
    hide Session.Image, Session.Touched, PageImage;
    assert APP / PAGE_SIZE in v.Touched();
    VectorOfPage(cells, data);
  }

  lemma VectorOfPage(cells: seq<Byte>, data: seq<Byte>)
    requires |cells| == FLASH_SIZE && 8 <= |data| <= PAGE_SIZE
    ensures PageImage(cells, APP / PAGE_SIZE, data)[APP..APP + 8] == data[..8]
  {
    var r := PageImage(cells, APP / PAGE_SIZE, data);
    forall i | 0 <= i < 8
      ensures r[APP + i] == data[i]
    {
      assert (APP + i) % PAGE_SIZE == i;
    }
  }

  // How many bytes the host may take for written after one supply failure: a
  // block for the banner, and three for what an error leaves waiting behind it.
  const FOOLED: nat := 4 * FAST_WRITE_SIZE

  lemma CoveredNext(offset: nat, end: nat, p: seq<Byte>, p': seq<Byte>, sags: int, sags': int)
    requires offset < end <= offset + FAST_WRITE_SIZE && sags <= sags' && |p'| <= 39
    ensures Covered(offset, p, sags) && sags < sags' ==> Covered(end, p', sags')
    ensures Covered(offset, p, sags) && Leftover(p') < Leftover(p) ==> Covered(end, p', sags')
    ensures offset == 0 && sags == 0 < sags' ==> Covered(end, p', sags')
  {
    assert FAST_WRITE_SIZE * Leftover(p) == 24 * Leftover(p) && FAST_WRITE_SIZE * Leftover(p') == 24 * Leftover(p');
    assert FOOLED * sags == 96 * sags && FOOLED * sags' == 96 * sags';
  }

  lemma MoreSags(n: nat, sags: int, more: int)
    requires sags <= more
    ensures n <= FOOLED * sags ==> n <= FOOLED * more
  {
  }

  ghost predicate Covered(offset: nat, waiting: seq<Byte>, sags: int)
  {
    offset + FAST_WRITE_SIZE * Leftover(waiting) <= FOOLED * sags
  }

  // With a vector of an application in place no restart goes unnoticed.
  lemma VectorHolds(v: Session, v': Session)
    requires v.Ok() && v'.Ok() && v.erased[VECTOR / 256] && v.open == -1 && Boots(v.cells) && VectorKept(v, v')
    ensures !Astray(v')
  {
    assert v.cells[8 * VECTOR..8 * VECTOR + 8] == v'.cells[8 * VECTOR..8 * VECTOR + 8];
    BootsSame(v.cells, v'.cells);
  }

  // ---- The host --------------------------------------------------------------

  // The image's own vector: what `Boots` finds once the image is in flash.
  predicate BootImage(image: seq<Byte>)
  {
    |image| >= 8 && BootVector(image[..8])
  }

  // How an attempt at a page stands after `offset` of its bytes: if a restart
  // has gone unnoticed, the supply failed often enough for it.
  ghost predicate Progress(v0: Session, p0: seq<Byte>, page: nat, data: seq<Byte>,
                           v: Session, p: seq<Byte>, sags: int, offset: nat)
    requires v0.Ok() && v.Ok()
  {
    && (Astray(v0) ==> Astray(v)) && (Astray(v) && !Astray(v0) ==> sags > 0)
    && (Astray(v) && page == APP / PAGE_SIZE && BootImage(data) && p0 == [] ==> Covered(offset, p, sags))
  }

  lemma ProgressNext(v0: Session, p0: seq<Byte>, page: nat, data: seq<Byte>, cells: seq<Byte>, others: set<int>,
                     v: Session, p: seq<Byte>, sags: int, offset: nat, v': Session, p': seq<Byte>, sags': int, end: nat)
    requires v0.Ok() && v.Ok() && v'.Ok() && Progress(v0, p0, page, data, v, p, sags, offset)
    requires 0 <= sags <= sags' && offset < end <= offset + FAST_WRITE_SIZE && offset <= |data| <= PAGE_SIZE && offset % 8 == 0
    requires (Astray(v) ==> Astray(v')) && (Astray(v') ==> |p'| <= 39)
    requires Astray(v') && sags' == sags ==> Astray(v) && Leftover(p') < Leftover(p)
    requires page == APP / PAGE_SIZE && offset > 0 ==> VectorKept(v, v')
    requires if Astray(v) then |p| <= 39 else v.open == -1 && Underway(v, cells, others, page, data[..offset])
    requires offset == 0 ==> v == v0 && p == p0 && sags == 0
    ensures Progress(v0, p0, page, data, v', p', sags', end)
  {
    hide Astray, VectorKept, Underway, BootImage, Covered;
    if Astray(v') {
      CoveredNext(offset, end, p, p', sags, sags');
    }
    if page == APP / PAGE_SIZE && BootImage(data) && offset > 0 && !Astray(v) {
      VectorWritten(v, v', cells, others, data, offset);
    }
  }

  lemma ProgressStart(v: Session, p: seq<Byte>, page: nat, data: seq<Byte>)
    requires v.Ok()
    ensures Progress(v, p, page, data, v, p, 0, 0)
  {
  }

  lemma ProgressMade(v0: Session, p0: seq<Byte>, page: nat, data: seq<Byte>,
                     v: Session, p: seq<Byte>, sags: int, offset: nat)
    requires v0.Ok() && v.Ok() && Progress(v0, p0, page, data, v, p, sags, offset)
    ensures Astray(v0) ==> Astray(v)
    ensures Astray(v) && !Astray(v0) ==> sags > 0
    ensures Astray(v) && page == APP / PAGE_SIZE && BootImage(data) && p0 == [] ==> offset <= FOOLED * sags
  {
    hide Astray, BootImage;
  }

  lemma VectorWritten(v: Session, v': Session, cells: seq<Byte>, others: set<int>, data: seq<Byte>, offset: nat)
    requires 8 <= offset <= |data| <= PAGE_SIZE && BootImage(data)
    requires Underway(v, cells, others, APP / PAGE_SIZE, data[..offset]) && v.open == -1
    requires v'.Ok() && VectorKept(v, v')
    ensures !Astray(v')
  {
    hide BootVector, VectorKept;
    VectorInPlace(v, cells, others, data[..offset]);
    assert data[..offset][..8] == data[..8];
    VectorHolds(v, v');
  }

  lemma ImageBoots(cells: seq<Byte>, image: seq<Byte>)
    requires |cells| == FLASH_SIZE && APP + |image| <= |cells| && cells[APP..APP + |image|] == image && BootImage(image)
    ensures Boots(cells)
  {
    hide BootVector;
    assert cells[APP..APP + 8] == cells[APP..APP + |image|][..8];
  }

  // Flashed, an image is started exactly if it has a bootable vector.
  lemma FlashedBoots(cells: seq<Byte>, image: seq<Byte>)
    requires |cells| == FLASH_SIZE && 0 < |image| && APP + |image| <= |cells|
    ensures Boots(Flashed(cells, image)) <==> BootImage(image)
  {
    hide BootVector;
    FlashedImage(cells, image);
    var r := Flashed(cells, image);
    if |image| >= 8 {
      assert r[APP..APP + 8] == r[APP..APP + |image|][..8] == image[..8];
    } else {
      assert (APP + 7 - APP) / PAGE_SIZE * PAGE_SIZE == 0;
      assert r[APP + 7] == ERASED;
      ErasedBootsNot(r);
    }
  }

  // An image of whole pages has no rest of a page to lose.
  lemma WholePages(cells: seq<Byte>, cells': seq<Byte>, image: seq<Byte>)
    requires OnlyApp(cells, cells', |image|) && APP + |image| <= |cells| && |image| % PAGE_SIZE == 0
    requires cells'[APP..APP + |image|] == image
    ensures cells' == Flashed(cells, image)
  {
    forall i | 0 <= i < |cells|
      ensures cells'[i] == Flashed(cells, image)[i]
    {
      if i >= APP && i - APP < |image| {
        assert cells'[i] == cells'[APP..APP + |image|][i - APP];
      } else if i >= APP {
        assert |image| <= (i - APP) / PAGE_SIZE * PAGE_SIZE;
      }
    }
  }

  lemma PaddingMissing(cells: seq<Byte>, image: seq<Byte>)
    requires |image| % PAGE_SIZE != 0 && APP + |image| < |cells| && cells[APP + |image|] != ERASED
    ensures cells != Flashed(cells, image)
  {
    assert (APP + |image| - APP) / PAGE_SIZE * PAGE_SIZE < |image|;
    assert Flashed(cells, image)[APP + |image|] == ERASED;
  }

  // For every other image there is a flash that already holds it, that the
  // bootloader would not start, and whose last page goes on behind it.
  lemma PaddingAtRisk(image: seq<Byte>) returns (cells: seq<Byte>)
    requires 0 < |image| <= MAX_IMAGE && |image| % PAGE_SIZE != 0 && !BootImage(image)
    ensures |cells| == FLASH_SIZE && cells[APP..APP + |image|] == image
    ensures cells[APP + |image|] != ERASED && !Boots(cells)
  {
    cells := seq<Byte>(FLASH_SIZE, i => if APP <= i < APP + |image| then image[i - APP] else 0);
    if |image| >= 8 {
      assert cells[APP..APP + 8] == image[..8];
    } else {
      assert cells[APP + 7] == 0;
    }
  }

  // The next page keeps what a start of the application depends on.
  lemma LaterPage(cells: seq<Byte>, cells': seq<Byte>, page: nat)
    requires |cells| == FLASH_SIZE && SamePages(cells, cells', {APP / PAGE_SIZE + page}) && page > 0
    ensures Boots(cells') == Boots(cells)
  {
    BootsSame(cells, cells');
  }

  // Where the persistent stores begin; they are behind the application's link
  // area, but in front of the end of what the host will flash.
  const STORES: nat := 0x7_E000

  // An image of up to 440 KiB leaves configuration and calibration alone.
  lemma StoresKept(cells: seq<Byte>, cells': seq<Byte>, n: nat)
    requires |cells| == FLASH_SIZE && OnlyApp(cells, cells', n) && n <= STORES - APP
    ensures cells'[STORES..] == cells[STORES..]
  {
    forall i | STORES <= i < FLASH_SIZE
      ensures cells'[i] == cells[i]
    {
      assert (i - APP) / PAGE_SIZE * PAGE_SIZE >= STORES - APP;
    }
  }

  // A larger one, still within the host's limit, replaces the configuration.
  lemma StoresOverwritten(cells: seq<Byte>, image: seq<Byte>)
    requires |cells| == FLASH_SIZE && STORES - APP < |image| <= MAX_IMAGE
    ensures forall i :: STORES <= i < STORES + PAGE_SIZE ==>
      Flashed(cells, image)[i] == if i - APP < |image| then image[i - APP] else ERASED
  {
    forall i | STORES <= i < STORES + PAGE_SIZE
      ensures Flashed(cells, image)[i] == if i - APP < |image| then image[i - APP] else ERASED
    {
      assert (i - APP) / PAGE_SIZE * PAGE_SIZE == STORES - APP;
    }
  }

  // At most two frames, and nothing but the last byte ends a line unless there
  // is only one frame.
  ghost predicate OneReply(full: seq<Byte>)
  {
    |full| <= MAX_PAYLOAD
    || (|full| <= 2 * MAX_PAYLOAD && forall i :: 0 <= i < |full| - 1 ==> full[i] != LF)
  }

  // With nothing lost a poll carries on, and the only line end comes last.
  lemma AllCarried(banner: seq<Byte>, full: seq<Byte>, result: seq<Byte>, v: Session, p: seq<Byte>, serving: bool,
                   chunk: Option<seq<Byte>>, v': Session, p': seq<Byte>, serving': bool, time: int)
    requires Polled(banner, v, p, serving, chunk, false, v', p', serving') && chunk.Some?
    requires result + p == full && |p| <= MAX_PAYLOAD * time && time > 0
    ensures (result + chunk.value) + p' == full && |p'| <= MAX_PAYLOAD * (time - 1)
    ensures OneReply(full) && LF in result + chunk.value ==> result + chunk.value == full
  {
    var s := result + chunk.value;
    if OneReply(full) && LF in s {
      var i :| 0 <= i < |s| && s[i] == LF;
      assert full[i] == LF;
    }
  }

  lemma BannerEndsLine(date: seq<Byte>, time: seq<Byte>)
    ensures LF in BannerText(date, time)
  {
    assert BannerText(date, time)[|BannerText(date, time)| - 1] == LF;
  }

  lemma BannerIsOneReply(date: seq<Byte>, time: seq<Byte>)
    requires |date| == 11 && |time| == 8
    ensures OneReply(BannerText(date, time))
  {
  }

  // A response the host, if all of it arrives, takes for success.
  ghost predicate Succeeds(full: seq<Byte>)
  {
    OneReply(full) && LF in full && !(Ascii("ERR") <= Strip(full))
  }

  lemma OkSucceeds()
    ensures Succeeds(OkText())
  {
    hide Strip;
    var ok := Ascii("OK");
    assert OkText() == ok + Ascii("\r\n") && OkText()[3] == LF;
    StripLine(ok);
  }

  lemma BannerSucceeds(date: seq<Byte>, time: seq<Byte>)
    requires |date| == 11 && |time| == 8
    ensures Succeeds(BannerText(date, time)) && |BannerText(date, time)| <= MAX_PAYLOAD
  {
    hide BannerText, Strip, Fields;
    BannerIsOneReply(date, time);
    BannerIsOneFrame(date, time);
    BannerLooksLikeSuccess(date, time);
  }

  lemma ReadySucceeds()
    ensures Succeeds(ReadyText()) && Strip(ReadyText()) == Ascii("ready")
  {
    var ready, full := Ascii("ready"), ReadyText();
    assert full[5] == LF && full[..5] == ready;
    assert LStrip(full) == full && RStrip(full) == RStrip(ready) == ready;
    assert ready[0] != Ascii("ERR")[0];
  }

  lemma ReadSucceeds(address: nat, data: seq<Byte>)
    requires 0 < |data| <= 32
    ensures Succeeds(ReadReply(address, data))
    ensures Fields(Strip(ReadReply(address, data))) == [UpperText(address, 8), UpperBlock(data)]
  {
    hide UpperText, UpperBlock, Fields, Strip, ReadReply, Ascii;
    ReplySplits(address, data);
    ReplyStrips(address, data);
    TextIsHex(address, 8);
    NoError(UpperText(address, 8), [SPACE] + UpperBlock(data));
  }

  lemma ReplyStrips(address: nat, data: seq<Byte>)
    requires data != []
    ensures LF in ReadReply(address, data)
    ensures Strip(ReadReply(address, data)) == UpperText(address, 8) + ([SPACE] + UpperBlock(data))
  {
    hide UpperText, UpperBlock, Strip;
    TextIsHex(address, 8);
    BlockIsHex(data);
    HexIsText(UpperText(address, 8));
    HexIsText(UpperBlock(data));
    var s := UpperText(address, 8) + ([SPACE] + UpperBlock(data));
    assert ReadReply(address, data) == s + Ascii("\r\n");
    assert (s + Ascii("\r\n"))[|s| + 1] == LF;
    StripLine(s);
  }

  lemma NoError(digits: seq<Byte>, rest: seq<Byte>)
    requires IsHex(digits) && |digits| > 1
    ensures !(Ascii("ERR") <= digits + rest)
  {
    assert (digits + rest)[1] == digits[1];
  }

  // A block appended in order is accepted.
  lemma BlockAccepted(address: nat, block: seq<Byte>, v: Session, v': Session, full: seq<Byte>, effect: Effect)
    requires v.Ok() && v'.Ok() && APP_START <= address && address + |block| <= FLASH_END && block != []
    requires AppendsAt(v, address)
    requires Executed(HostWrite(address, block), [], full, v, v', effect)
    ensures Succeeds(full) && AppendsAt(v', address + |block|)
  {
    hide SoFar, SpellsBlock, HexFold, HexText, HexBlock, AppendsAt, Succeeds, Spelled;
    AddressText(address);
    HexBlockSpells(block);
    BlockSpelled(HexBlock(block), block);
    OkSucceeds();
    assert Accepts(v, HexText(address, 8), HexBlock(block));
    assert [] + OkText() == OkText();
  }

  lemma UnlockDone(v: Session, v': Session, full: seq<Byte>, effect: Effect)
    requires v.Ok() && v'.Ok() && Executed(CommandLine.Command.Unlock, [], full, v, v', effect)
    ensures Succeeds(full) && !v'.locked && v'.Ready() && v'.Position() == FRESH
  {
    OkSucceeds();
    assert [] + OkText() == OkText();
    hide Succeeds;
    hide Session.Clean, Session.Ready, Session.Image, Session.Touched;
    assert v'.Position() == FRESH;
  }

  lemma FreshStart(v: Session, v': Session, full: seq<Byte>, effect: Effect)
    requires v.Ok() && v'.Ok() && Executed(CommandLine.Command.Unlock, [], full, v, v', effect)
    ensures v'.cells == v.cells && v'.open == -1 && v'.Touched() == {}
  {
    hide Session.Clean, Session.Ready, Session.Image, Session.Touched;
    assert PromiseOf(v').cursor == FRESH;
  }

  lemma LockDone(v: Session, v': Session, full: seq<Byte>, effect: Effect)
    requires v.Ok() && v'.Ok() && Executed(CommandLine.Command.Lock, [], full, v, v', effect) && v.open == -1
    ensures Succeeds(full)
  {
    OkSucceeds();
    assert [] + OkText() == OkText();
    hide Succeeds;
  }

  lemma ResetLocks(before: seq<Byte>, after: seq<Byte>, v: Session, w: Session, effect: Effect)
    requires v.Ok() && w.Ok() && v.open == -1 && Executed(CommandLine.Command.Reset, before, after, v, w, effect)
    ensures w.locked
  {
  }

  lemma EchoDone(v: Session, v': Session, full: seq<Byte>, effect: Effect)
    requires v.Ok() && v'.Ok() && Executed(Echo(ReadyText()), [], full, v, v', effect)
    ensures full == ReadyText()
  {
    assert [] + ReadyText() == ReadyText();
  }

  lemma PutReadFirst(address: nat, data: seq<Byte>)
    requires |data| <= 32
    ensures PutRead([], address, data) == ReadReply(address, data)
  {
    hide PutRead, ReadReply;
    PutReadAppends([], address, data);
    assert [] + ReadReply(address, data) == ReadReply(address, data);
  }

  lemma HeldIs(cells: seq<Byte>, from: nat, to: nat)
    requires |cells| == FLASH_SIZE && from <= to <= MAX_IMAGE
    ensures Held(cells, APP_START + from, to - from) == cells[APP + from..APP + to]
  {
  }

  // `needle in text`
  predicate Contains(text: seq<Byte>, needle: seq<Byte>)
  {
    needle <= text || (text != [] && Contains(text[1..], needle))
  }

  lemma FreshAppends(v: Session, offset: nat)
    requires v.Ok() && v.healthy && !v.locked && v.Ready() && v.Position() == FRESH && offset % 8 == 0
    ensures Appends(v, offset)
  {
    InStepAligned(FRESH, offset);
  }

  // Even a line cut short stays on its page.
  lemma WriteSpares(address: nat, block: seq<Byte>, v: Session, v': Session)
    requires v.Ok() && v'.Ok() && InOnePage(address, |block|)
    requires Spares(HostWrite(address, block), v, v')
    ensures StaysOn(v, v', PageAt(address))
    ensures address >= APP_START + 8 ==> VectorKept(v, v')
  {
    hide StaysOn, VectorKept, HexFold, HexText, HexBlock;
    AddressText(address);
  }

  lemma BlockInPage(page: nat, offset: nat, n: nat)
    requires page < PAGES && offset + n <= PAGE_SIZE && n > 0
    ensures InOnePage(FLASH_START + page * PAGE_SIZE + offset, n)
    ensures PageAt(FLASH_START + page * PAGE_SIZE + offset) == page
  {
  }

  lemma EchoReadyParses()
    ensures OneLine(Ascii("echo ready")) && Parse(Ascii("echo ready") + [LF]) == Echo(ReadyText())
  {
    hide Parse, LineEnd;
    EchoLineParses(Ascii("ready"));
    assert Ascii("echo ready") == Ascii("echo") + [SPACE] + Ascii("ready");
  }

  lemma StartPage(v: Session, page: nat)
    requires v.Ok() && v.open == -1 && page !in v.Touched()
    ensures Underway(v, v.cells, v.Touched(), page, [])
  {
    hide Session.Touched, Session.Image;
    NothingOpen(v);
  }

  lemma SamePagesSelf(cells: seq<Byte>, page: nat)
    ensures SamePages(cells, cells, {page})
  {
  }

  lemma StaysHere(cells: seq<Byte>, v: Session, v': Session, page: nat)
    requires v.Ok() && v'.Ok() && StaysOn(v, v', page) && (v.open == -1 || v.open / 256 == page)
    requires SamePages(cells, v.cells, {page})
    ensures SamePages(cells, v'.cells, {page}) && (v'.open == -1 || v'.open / 256 == page)
  {
  }

  lemma SamePagesTwice(a: seq<Byte>, b: seq<Byte>, c: seq<Byte>, page: nat)
    requires SamePages(a, b, {page}) && SamePages(b, c, {page})
    ensures SamePages(a, c, {page})
  {
  }

  lemma PageDone(cells: seq<Byte>, others: set<int>, v': Session, page: nat, data: seq<Byte>)
    requires v'.Ok() && v'.open == -1 && Underway(v', cells, others, page, data) && data != []
    ensures v'.cells == PageImage(cells, page, data) && v'.Touched() == others + {page}
  {
    hide Session.Touched, Session.Image;
    NothingOpen(v');
  }

  lemma BannerIsOneFrame(date: seq<Byte>, time: seq<Byte>)
    requires |date| == 11 && |time| == 8
    ensures |BannerText(date, time)| <= MAX_PAYLOAD
  {
  }

  lemma LockOneLine()
    ensures OneLine(Ascii("lock")) && Parse(Ascii("lock") + [LF]) == CommandLine.Command.Lock
  {
    LockLineParses();
  }

  // What the bootloader answers spells what it read.
  lemma ReadAgain(address: nat, data: seq<Byte>)
    requires address < TWO32
    ensures HexFold(UpperText(address, 8)) == Some(address) && SpellsBlock(UpperBlock(data), data)
  {
    hide SpellsBlock, UpperBlock, UpperText;
    AddressText(address);
    UpperBlockSpells(data);
  }

  lemma BlockSpelled(text: seq<Byte>, data: seq<Byte>)
    requires SpellsBlock(text, data)
    ensures Spelled(text)
  {
  }

  lemma OnlyAppMore(cells: seq<Byte>, a: seq<Byte>, m: nat, n: nat)
    requires OnlyApp(cells, a, m) && m <= n
    ensures OnlyApp(cells, a, n)
  {
  }

  lemma OnlyAppPadded(cells: seq<Byte>, a: seq<Byte>, n: nat, padded: nat)
    requires OnlyApp(cells, a, padded) && n <= padded < n + 8 && padded % 8 == 0
    ensures OnlyApp(cells, a, n)
  {
    forall i | 0 <= i < |cells| && (i < APP || n <= (i - APP) / PAGE_SIZE * PAGE_SIZE)
      ensures a[i] == cells[i]
    {
      if i >= APP {
        NoPageBetween(n, padded, (i - APP) / PAGE_SIZE);
      }
    }
  }

  // `image + b"\xff" * ((-len(image)) % 8)`
  function Padded(image: seq<Byte>): (r: seq<Byte>)
    ensures |image| <= |r| < |image| + 8 && |r| % 8 == 0
  {
    image + seq<Byte>((8 - |image| % 8) % 8, _ => ERASED)
  }

  lemma PaddedErased(cells: seq<Byte>, image: seq<Byte>)
    ensures Flashed(cells, Padded(image)) == Flashed(cells, image)
  {
    hide Flashed;
    PaddingErased(cells, image, Padded(image)[|image|..]);
  }

  lemma PaddedGuarded(image: seq<Byte>)
    ensures Guarded(image) ==> Guarded(Padded(image))
  {
    if |image| >= 8 {
      assert Padded(image)[..8] == image[..8];
    }
  }

  lemma OnlyAppSame(cells: seq<Byte>, n: nat)
    ensures OnlyApp(cells, cells, n)
  {
  }

  lemma FlashedNothing(cells: seq<Byte>, data: seq<Byte>)
    ensures Flashed(cells, data[..0]) == cells && OnlyApp(cells, cells, 0)
  {
  }

  // Where the last block of the last page begins.
  function LastBlock(n: nat): (at: nat)
    requires n > 0
    ensures at < n <= at + FAST_WRITE_SIZE && at / PAGE_SIZE == (n - 1) / PAGE_SIZE
  {
    var page := (n - 1) / PAGE_SIZE * PAGE_SIZE;
    page + (n - 1 - page) / FAST_WRITE_SIZE * FAST_WRITE_SIZE
  }

  // Losing the last block of the image shows: it is neither the first of its
  // page nor all ones.
  predicate Exposed(image: seq<Byte>)
  {
    image != [] && LastBlock(|Padded(image)|) % PAGE_SIZE > 0
    && exists i :: LastBlock(|Padded(image)|) <= i < |image| && image[i] != ERASED
  }

  // Without the last block, what is in flash is neither started nor the image.
  lemma BlockMissing(cells: seq<Byte>, image: seq<Byte>)
    requires |cells| == FLASH_SIZE && |image| <= MAX_IMAGE && Exposed(image) && !BootImage(image)
    ensures var r := Flashed(cells, Padded(image)[..LastBlock(|Padded(image)|)]);
      !Boots(r) && r[APP..APP + |image|] != image
  {
    hide BootVector;
    var at := LastBlock(|Padded(image)|);
    var part := Padded(image)[..at];
    var r := Flashed(cells, part);
    LastBlockFar(|Padded(image)|);
    FlashedBoots(cells, part);
    assert part[..8] == image[..8];
    var k :| at <= k < |image| && image[k] != ERASED;
    assert k / PAGE_SIZE == at / PAGE_SIZE;
    assert r[APP + k] == ERASED;
    assert r[APP..APP + |image|][k] == r[APP + k];
  }

  lemma ExposedSome(image: seq<Byte>)
    requires Exposed(image)
    ensures image != []
  {
  }

  lemma LastBlockAligned(n: nat)
    requires n > 0 && n % 8 == 0
    ensures LastBlock(n) % 8 == 0
  {
    var q := (n - 1) / PAGE_SIZE;
    var page := q * PAGE_SIZE;
    var blocks := (n - 1 - page) / FAST_WRITE_SIZE;
    assert page == 8 * (256 * q) && blocks * FAST_WRITE_SIZE == 8 * (3 * blocks);
  }

  lemma LastBlockFar(n: nat)
    requires n > 0 && LastBlock(n) % PAGE_SIZE > 0
    ensures LastBlock(n) >= FAST_WRITE_SIZE && LastBlock(n) / PAGE_SIZE * PAGE_SIZE < LastBlock(n)
  {
  }

  class Client {
    const target: Target
    var safeWrites: bool
    // The surroundings, how far they have come, and what has gone wrong so far.
    const events: nat -> Event
    var now: nat
    ghost var weather: Weather

    ghost predicate Valid()
      reads target.Repr()
    {
      && target.Valid() && target.server.id == BOOT_ID && target.server.command.View() == []
      && this !in target.Repr()
    }

    ghost predicate Told()
      reads this`now, this`weather
    {
      weather == Counted(events, now)
    }

    constructor (target: Target, safeWrites: bool, events: nat -> Event)
      requires target.Valid() && target.server.id == BOOT_ID && target.server.command.View() == []
      ensures Valid() && Told() && weather == Weather(0, 0)
      ensures this.target == target && this.safeWrites == safeWrites && this.events == events
    {
      this.target, this.safeWrites, this.events := target, safeWrites, events;
      now, weather := 0, Weather(0, 0);
    }

    method Next() returns (e: Event)
      requires Told()
      modifies this`now, this`weather
      ensures Told() && now == old(now) + 1 && e == events(old(now)) && weather == Felt(old(weather), e)
      ensures Later(old(weather), weather) && (e.Calm? <==> weather == old(weather))
      ensures weather.sags > old(weather.sags) <==> e in {SupplyFails, PowerCut}
    {
      e := events(now);
      now, weather := now + 1, Felt(weather, e);
    }

    predicate Healthy()
    {
      target.server.flash.flash.healthy
    }

    // The bootloader answers, nothing of an earlier answer is waiting, and an
    // open session takes every byte from `offset` on.
    ghost predicate InOrder(offset: nat)
      requires Valid()
      reads target.Repr()
    {
      target.serving && Pending() == [] && Appends(Flash(), offset)
    }

    ghost function Flash(): (v: Session)
      requires Valid()
      reads target.Repr()
      ensures v.Ok()
    {
      target.Flash()
    }

    ghost function Pending(): (s: seq<Byte>)
      requires Valid()
      reads target.Repr()
      ensures |s| <= CAPACITY
    {
      target.server.response.View()
    }

    ghost function Banner(): (s: seq<Byte>)
      requires Valid()
      reads target.Repr()
      ensures |s| == 54
    {
      BannerText(target.server.date, target.server.time)
    }

    // The supply may fail at any time; the bootloader then decides anew.
    method Sag() returns (ghost reset: bool)
      requires Valid() && Told()
      modifies target.Repr(), this`weather, this`now
      ensures Told() && Later(old(weather), weather)
      ensures Valid() && Flash().cells == old(Flash()).cells
      ensures weather.sags == old(weather.sags) ==> !reset
      ensures if reset then Restarted(Flash()) && Pending() == Banner() && target.serving == !Boots(Flash().cells)
        else Flash() == old(Flash()) && Pending() == old(Pending()) && target.serving == old(target.serving)
    {
      hide Confined, BannerText, Boots, Carry, Concat, Session.Image, Client.Told;
      reset := false;
      var e := Next();
      if e == SupplyFails {
        target.Restart();
        reset := true;
      }
    }

    method ParseFrame(data: seq<Byte>) returns (r: Option<seq<Byte>>)
      ensures r == ParseResponse(data)
    {
      hide Carry, Concat, HostVaruint;
      var subframe, p := VaruintDecode(data, 0);
      assert data[0..] == data;
      var channel, q := VaruintDecode(data, p);
      var length, start := VaruintDecode(data, q);
      if subframe != Some(SERVER_TO_CLIENT) || channel != Some(TUNNEL_CHANNEL) || length == None {
        return None;
      }
      if start + length.value > |data| {
        return None;
      }
      return Some(data[start..start + length.value]);
    }

    // A poll whose request and answer both arrive.
    method Ask() returns (chunk: Option<seq<Byte>>)
      requires Valid() && target.serving
      modifies target.Repr()
      ensures Valid() && Flash() == old(Flash()) && target.serving
      ensures chunk == Some(old(Pending())[..Batch(|old(Pending())|, 61)])
      ensures Pending() == old(Pending())[Batch(|old(Pending())|, 61)..]
    {
      hide Carry, Decode, ResponseFrame, ParseResponse, BuildPoll, RanLine, Confined, Concat, Received, Resets, Boots;
      var pad: seq<Byte>, pad': seq<Byte> := *, *;
      PollFrameDecodes(61, pad);
      ghost var _ := target.Receive(Frame(HOST_ID + 128, BOOT_ID, BuildPoll(61) + pad));
      ResponseFrameParses(old(Pending())[..Batch(|old(Pending())|, 61)], pad');
      chunk := ParseFrame(target.server.sent[|target.server.sent| - 1] + pad');
    }

    // One poll; None when the request or its answer is lost, or nobody serves.
    method Poll() returns (chunk: Option<seq<Byte>>, ghost reset: bool)
      requires Valid() && Told()
      modifies target.Repr(), this`weather, this`now
      ensures Told() && Later(old(weather), weather)
      ensures Valid() && (weather == old(weather) && target.serving ==> chunk.Some?) && (chunk.Some? ==> target.serving)
      ensures weather.sags == old(weather.sags) ==> !reset && target.serving == old(target.serving)
      ensures Polled(Banner(), old(Flash()), old(Pending()), old(target.serving), chunk, reset,
                     Flash(), Pending(), target.serving)
    {
      hide Session.Image, Session.Touched, BannerText, Boots, Carry, Concat, Client.Told;
      reset := Sag();
      chunk := None;
      var e := Next();
      if target.serving && (e.Calm? || e == AnswerLost) {
        chunk := Ask();
      }
      if !e.Calm? {
        chunk := None;
      }
    }

    // Polls until a line end arrives or time runs out.
    method Collect(ghost r: Run) returns (reply: Option<seq<Byte>>, ghost r': Run)
      requires Valid() && Told() && r.w == Flash() && r.after == Pending() && r.serving == target.serving
      requires !r.struck && r.from == [] && r.taken == 0
      modifies target.Repr(), this`weather, this`now
      ensures Told() && Later(old(weather), weather)
      ensures Valid() && SameSent(r, r') && Heard(Banner(), r', reply, Flash(), Pending())
      ensures weather.sags == old(weather.sags) ==> !r'.struck && target.serving == old(target.serving)
      ensures reply.Some? ==> target.serving
      ensures weather == old(weather) && r.serving && OneReply(r.after) && LF in r.after ==> reply == Some(r.after)
    {
      hide Carry, Concat, Target.Valid, OneReply, Polled, Polling, Boots, Session.Touched, Session.Image, BannerText;
      hide Client.Told;
      hide Restarted, Heard;
      hide SameSent;
      ghost var banner := Banner();
      r' := r;
      var result: seq<Byte> := [];
      var time: nat := *;
      var e := Next();
      if e.Hurry? {
        time := e.polls;
      } else if time < 5 {
        time := 5;
      }
      PollStart(banner, r, target.serving);
      BannerEndsLine(target.server.date, target.server.time);
      SentTwice(r, r, r);
      while time > 0
        invariant Valid() && Banner() == banner && r'.w == r.w && r'.serving == r.serving && r'.after == r.after
        invariant SameSent(r, r') && Polling(banner, r', result, Flash(), Pending(), target.serving)
        invariant Told() && Later(old(weather), weather)
        invariant weather.sags == old(weather.sags) ==> !r'.struck && target.serving == r.serving
        invariant weather == old(weather) && r.serving ==> result + Pending() == r.after && |Pending()| <= MAX_PAYLOAD * time
      {
        ghost var v, waiting, serving, before := Flash(), Pending(), target.serving, r';
        var chunk, reset := Poll();
        r' := PollStep(banner, before, result, v, waiting, serving, chunk, reset, Flash(), Pending(), target.serving);
        SentTwice(r, before, r');
        if weather == old(weather) && r.serving {
          AllCarried(banner, r.after, result, v, waiting, serving, chunk, Flash(), Pending(), target.serving, time);
        }
        if chunk.Some? {
          result := result + chunk.value;
          if LF in result {
            return Some(result), r';
          }
        }
        time := time - 1;
      }
      PollGivesUp(banner, r', result, Flash(), Pending(), target.serving);
      reply := None;
    }

    // The command frame reaches the bootloader.
    method Deliver(text: seq<Byte>) returns (ghost effect: Effect)
      requires Valid() && target.serving && OneLine(text) && !Parse(text + [LF]).Reset?
      modifies target.Repr()
      ensures Valid() && target.serving && Spares(Parse(text + [LF]), old(Flash()), Flash())
      ensures Executed(Parse(text + [LF]), old(Pending()), Pending(), old(Flash()), Flash(), effect)
    {
      hide Decode, BuildWrite, Executed, Spares, Confined, Parse, Carry, Concat, Boots;
      hide Session.Clean, Session.Ready, Session.Image, Session.Touched;
      var payload := text + [LF];
      var pad: seq<Byte> := *;
      WriteFrameDecodes(payload, pad);
      assert Received([], Tunnel(payload, false)) == payload;
      effect := target.Receive(Frame(HOST_ID, BOOT_ID, BuildWrite(payload) + pad));
      assert payload[LineEnd(payload) + 1..] == [];
    }

    // What becomes of a command frame, given what comes next.
    method Arrive(text: seq<Byte>, e: Event, ghost reset: bool) returns (ghost r: Run)
      requires Valid() && OneLine(text) && !Parse(text + [LF]).Reset?
      requires reset ==> target.serving == !Boots(Flash().cells)
      modifies target.Repr()
      ensures Valid() && Flash() == r.w && Pending() == r.after && target.serving == r.serving
      ensures r == Run(old(Flash()), old(Pending()), reset, r.fate, r.effect, r.w, r.after, r.serving, false, [], 0, 0, [])
      ensures Fared(Parse(text + [LF]), Banner(), r)
      ensures !r.fate.Cut? ==> target.serving == old(target.serving)
      ensures r.fate.Cut? ==> e == PowerCut
      ensures e.Calm? && old(target.serving) ==> r.fate.Done?
    {
      assert |text| <= 60;
      hide Executed, Spares, Confined, Parse, Boots, Carry, Concat, BannerText, OneLine;
      hide Session.Clean, Session.Ready, Session.Image, Session.Touched;
      var line := Parse(text + [LF]);
      ParsedData(text + [LF]);
      assert line.WriteCmd? ==> |line.data| <= CAPACITY;
      r := Run(Flash(), Pending(), reset, Lost, Nothing, Flash(), Pending(), target.serving, false, [], 0, 0, []);
      if target.serving && e.Calm? {
        ghost var effect := Deliver(text);
        r := r.(fate := Done, effect := effect, w := Flash(), after := Pending());
      } else if target.serving && e == PowerCut {
        target.Brownout(line);
        r := r.(fate := Cut, w := Flash(), after := Pending(), serving := target.serving);
      }
    }

    // Sends one command frame. It may be lost, and the supply may fail before
    // it or while the line is executed.
    method Send(text: seq<Byte>) returns (ghost r: Run)
      requires Valid() && Told() && OneLine(text) && !Parse(text + [LF]).Reset?
      modifies target.Repr(), this`weather, this`now
      ensures Told() && Later(old(weather), weather)
      ensures Valid() && Flash() == r.w && Pending() == r.after && target.serving == r.serving
      ensures !r.struck && r.from == [] && r.taken == 0
      ensures Met(old(Flash()), old(Pending()), Banner(), r) && Fared(Parse(text + [LF]), Banner(), r)
      ensures weather.sags == old(weather.sags) ==> !r.reset && !r.fate.Cut? && target.serving == old(target.serving)
      ensures weather == old(weather) && target.serving ==> r.fate.Done?
    {
      hide Felt, Client.Told, Fared, Parse, Boots, Carry, Concat, BannerText, OneLine;
      hide Session.Clean, Session.Ready, Session.Image, Session.Touched;
      ghost var reset := Sag();
      var e := Next();
      r := Arrive(text, e, reset);
    }

    // One command: the stripped response line, or None for any exception.
    method Command(text: seq<Byte>) returns (line: Option<seq<Byte>>, ghost reply: Option<seq<Byte>>, ghost r: Run)
      requires Valid() && Told() && OneLine(text) && !Parse(text + [LF]).Reset?
      modifies target.Repr(), this`weather, this`now
      ensures Told() && Later(old(weather), weather)
      ensures Valid()
      ensures Exchanged(Parse(text + [LF]), old(Flash()), old(Pending()), Banner(), r, reply, Flash(), Pending())
      ensures line.Some? ==> reply.Some? && line.value == Strip(reply.value) && !(Ascii("ERR") <= line.value)
      ensures weather.sags == old(weather.sags) ==> target.serving == old(target.serving)
      ensures weather.sags == old(weather.sags) ==> Supplied(r)
      ensures reply.Some? ==> target.serving
      ensures weather == old(weather) && target.serving ==> r.fate.Done?
      ensures weather == old(weather) && target.serving && Succeeds(r.after) ==> line == Some(Strip(r.after))
    {
      hide Fared, Met, Heard, Parse, Strip, OneReply, Carry, Concat, BannerText, OneLine, Client.Told;
      hide Session.Clean, Session.Ready, Session.Image, Session.Touched;
      line := None;
      r := Send(text);
      ghost var sent := r;
      var result;
      result, r := Collect(r);
      MetFared(old(Flash()), old(Pending()), Banner(), Parse(text + [LF]), sent, r);
      reply := result;
      if result.Some? {
        if !(Ascii("ERR") <= Strip(result.value)) {
          line := Some(Strip(result.value));
        }
      }
    }

    // ---- Writing ---------------------------------------------------------------

    // A block write: what the host takes for success stored the block, or was
    // said by a bootloader gone astray.
    method WriteBlock(address: nat, block: seq<Byte>) returns (ok: bool)
      requires Valid() && Told() && Settled(Flash(), Pending())
      requires InOnePage(address, |block|) && 0 < |block| <= FAST_WRITE_SIZE
      modifies target.Repr(), this`weather, this`now
      ensures Told() && Later(old(weather), weather)
      ensures Valid() && StaysOn(old(Flash()), Flash(), PageAt(address))
      ensures ok ==>
        || (Pending() == [] && !old(Flash()).locked && SoFar(old(Flash()), Flash(), address, block))
        || (Astray(Flash()) && |Pending()| <= 39)
      ensures weather.sags == old(weather.sags) ==> target.serving == old(target.serving)
      ensures ok && old(Flash()).locked ==> Astray(Flash())
      ensures ok && !Astray(Flash()) && address >= APP_START && AppendsAt(old(Flash()), address) ==>
        target.serving && Pending() == [] && AppendsAt(Flash(), address + |block|)
      ensures ok && Astray(Flash()) && weather.sags == old(weather.sags) ==>
        Astray(old(Flash())) && Leftover(Pending()) < Leftover(old(Pending()))
      ensures address >= APP_START + 8 ==> VectorKept(old(Flash()), Flash())
      ensures weather == old(weather) && target.serving && old(Pending()) == [] ==>
        address >= APP_START && AppendsAt(old(Flash()), address) ==> ok
    {
      hide Met, Fared, Heard, Executed, Spares, Confined, Parse, OneReply, Strip, Carry, Concat, BannerText, SoFar;
      hide Client.Told;
      hide StaysOn, OneLine, VectorKept, Astray;
      hide AppendsAt, Succeeds, Boots, HostWrite;
      hide Session.Clean, Session.Ready, Session.Image, Session.Touched, HexText, HexBlock, WriteLine;
      WriteLineRead(address, block);
      HostWriteIs(address, block);
      ghost var v, p := Flash(), Pending();
      var line, reply, r := Command(WriteLine(address, block));
      SparesExchange(HostWrite(address, block), v, p, Banner(), r, reply, Flash(), Pending());
      WriteSpares(address, block, v, Flash());
      if line.Some? {
        WriteSettles(address, block, v, p, Banner(), r, reply.value, Flash(), Pending());
        WriteTaken(address, block, v, p, Banner(), r, reply.value, Flash(), Pending());
      }
      if Supplied(r) && r.fate.Done? && p == [] && address >= APP_START && AppendsAt(v, address) {
        PlainRun(HostWrite(address, block), v, p, Banner(), r, reply, Flash(), Pending());
        BlockAccepted(address, block, v, Flash(), r.after, r.effect);
      }
      ok := line.Some?;
    }

    // `command("unlock")`: a new session, or a restart taken for one.
    method Unlock() returns (ok: bool)
      requires Valid() && Told() && Pending() == []
      modifies target.Repr(), this`weather, this`now
      ensures Told() && Later(old(weather), weather)
      ensures Valid() && Flash().cells == old(Flash()).cells
      ensures Flash().open == -1 || Flash().open == old(Flash()).open
      ensures ok ==> Pending() == [] && Flash().open == -1 && Flash().Touched() == {}
      ensures weather.sags == old(weather.sags) ==> target.serving == old(target.serving)
      ensures ok ==> target.serving && (Opened(Flash()) || (Astray(Flash()) && weather.sags > old(weather.sags)))
      ensures weather == old(weather) && target.serving ==> ok
    {
      hide Met, Fared, Heard, Executed, Confined, OneReply, Strip, Carry, Concat, BannerText, Parse, Succeeds;
      hide Client.Told;
      hide Boots, Opened, Astray;
      hide Session.Clean, Session.Ready, Session.Image, Session.Touched;
      UnlockLineParses();
      ghost var v, command := Flash(), CommandLine.Command.Unlock;
      var line, reply, r := Command(Ascii("unlock"));
      SparesExchange(command, v, [], Banner(), r, reply, Flash(), Pending());
      ok := line.Some?;
      if ok {
        UnlockSettles(v, Banner(), r, reply.value, Flash(), Pending());
        UnlockTaken(v, Banner(), r, reply.value, Flash(), Pending());
      }
      if weather == old(weather) && target.serving {
        PlainRun(command, v, [], Banner(), r, reply, Flash(), Pending());
        UnlockDone(v, Flash(), r.after, r.effect);
      }
    }

    // `command("echo ready")`.
    method EchoReady() returns (line: Option<seq<Byte>>)
      requires Valid() && Told() && Pending() == []
      modifies target.Repr(), this`weather, this`now
      ensures Told() && Later(old(weather), weather)
      ensures Valid() && Flash().cells == old(Flash()).cells
      ensures Flash().open == -1 || Flash().open == old(Flash()).open
      ensures line.Some? ==> Pending() == []
      ensures weather.sags == old(weather.sags) ==> target.serving == old(target.serving)
      ensures line.Some? ==> target.serving
      ensures weather == old(weather) && target.serving ==> line == Some(Ascii("ready"))
    {
      hide Met, Fared, Heard, Executed, Confined, OneReply, Strip, Carry, Concat, BannerText, Parse, Succeeds, Boots;
      hide Client.Told;
      hide Session.Clean, Session.Ready, Session.Image, Session.Touched;
      EchoReadyParses();
      ghost var v, command := Flash(), Echo(ReadyText());
      ghost var reply, r;
      line, reply, r := Command(Ascii("echo ready"));
      SparesExchange(command, v, [], Banner(), r, reply, Flash(), Pending());
      if line.Some? {
        EchoSettles(v, Banner(), r, reply.value, Flash(), Pending());
      }
      if weather == old(weather) && target.serving {
        PlainRun(command, v, [], Banner(), r, reply, Flash(), Pending());
        EchoDone(v, Flash(), r.after, r.effect);
        ReadySucceeds();
      }
    }

    // A poll sent again up to four times.
    method PollRetry() returns (chunk: Option<seq<Byte>>)
      requires Valid() && Told()
      modifies target.Repr(), this`weather, this`now
      ensures Told() && Later(old(weather), weather)
      ensures Valid() && Flash().cells == old(Flash()).cells
      ensures Flash().open == -1 || Flash().open == old(Flash()).open
      ensures chunk == Some([]) ==> Pending() == []
      ensures chunk.Some? ==> Pending() == [] || |Pending()| + MAX_PAYLOAD <= |old(Pending())|
      ensures weather.sags == old(weather.sags) ==> Flash() == old(Flash()) && target.serving == old(target.serving)
      ensures chunk.Some? ==> target.serving
      ensures weather == old(weather) && target.serving ==> chunk.Some?
    {
      hide Boots, Session.Image, Session.Touched, BannerText, Client.Told;
      chunk := None;
      for i := 0 to 5
        invariant Valid() && Flash().cells == old(Flash()).cells && chunk.None?
        invariant Flash().open == -1 || Flash().open == old(Flash()).open
        invariant |Pending()| <= MAX_PAYLOAD || |Pending()| <= |old(Pending())|
        invariant Told() && Later(old(weather), weather)
        invariant weather.sags == old(weather.sags) ==> Flash() == old(Flash()) && target.serving == old(target.serving)
        invariant weather == old(weather) && target.serving ==> i == 0
      {
        ghost var reset;
        chunk, reset := Poll();
        if chunk.Some? {
          return;
        }
      }
    }

    // Eight full frames are more than the bootloader can have pending.
    method DrainBanner() returns (ok: bool)
      requires Valid() && Told()
      modifies target.Repr(), this`weather, this`now
      ensures Told() && Later(old(weather), weather)
      ensures Valid() && Flash().cells == old(Flash()).cells
      ensures Flash().open == -1 || Flash().open == old(Flash()).open
      ensures ok ==> Pending() == []
      ensures weather.sags == old(weather.sags) ==> target.serving == old(target.serving)
      ensures ok ==> target.serving
      ensures weather == old(weather) && target.serving ==> ok
    {
      hide Client.Told;
      for i := 0 to 8
        invariant Valid() && Flash().cells == old(Flash()).cells
        invariant Flash().open == -1 || Flash().open == old(Flash()).open
        invariant Pending() == [] || |Pending()| + i * MAX_PAYLOAD <= CAPACITY
        invariant i > 0 ==> target.serving
        invariant weather.sags == old(weather.sags) ==> target.serving == old(target.serving)
        invariant Told() && Later(old(weather), weather)
      {
        var chunk := PollRetry();
        if chunk == None {
          return false;
        }
        if chunk.value == [] {
          return true;
        }
      }
      ok := true;
    }

    // `enter()`: an application that receives the request restarts into the
    // bootloader; a bootloader takes no notice of it.
    method Enter()
      requires Valid() && Told()
      modifies target.Repr(), this`weather, this`now
      ensures Told() && Later(old(weather), weather)
      ensures Valid() && Flash().cells == old(Flash()).cells
      ensures Flash().open == -1 || Flash().open == old(Flash()).open
      ensures weather == old(weather) ==> target.serving
    {
      hide Confined, Boots, BannerText, Carry, Concat, Session.Image, Session.Touched, Client.Told;
      ghost var _ := Sag();
      var e := Next();
      target.Request(e.Calm?);
      ghost var _ := Sag();
    }

    // None stands for an exception on the way.
    method DrainAndEcho() returns (line: Option<seq<Byte>>)
      requires Valid() && Told()
      modifies target.Repr(), this`weather, this`now
      ensures Told() && Later(old(weather), weather)
      ensures Valid() && Flash().cells == old(Flash()).cells
      ensures Flash().open == -1 || Flash().open == old(Flash()).open
      ensures line.Some? ==> Pending() == []
      ensures weather.sags == old(weather.sags) ==> target.serving == old(target.serving)
      ensures line.Some? ==> target.serving
      ensures weather == old(weather) && target.serving ==> line == Some(Ascii("ready"))
    {
      hide Client.Told;
      line := None;
      var drained := DrainBanner();
      if drained {
        line := EchoReady();
      }
    }

    // With nothing lost and the supply holding, one go opens a session, whether
    // the bootloader or the application was running.
    method RecoverOnce() returns (ok: bool)
      requires Valid() && Told()
      modifies target.Repr(), this`weather, this`now
      ensures Told() && Later(old(weather), weather)
      ensures Valid() && Flash().cells == old(Flash()).cells
      ensures Flash().open == -1 || Flash().open == old(Flash()).open
      ensures ok ==> Pending() == [] && Flash().open == -1 && Flash().Touched() == {}
      ensures ok ==> target.serving && (Opened(Flash()) || (Astray(Flash()) && weather.sags > old(weather.sags)))
      ensures weather == old(weather) ==> ok
    {
      hide Carry, Concat, Boots, BannerText, Opened, Astray, Client.Told;
      hide Session.Clean, Session.Ready, Session.Image, Session.Touched;
      ghost var _ := Sag();
      var line := DrainAndEcho();
      if line == None {
        Enter();
        line := DrainAndEcho();
      }
      ok := line == Some(Ascii("ready"));
      if ok {
        ok := Unlock();
      }
    }

    // Five goes: a recovery that fails met at least five faults. One that met
    // none leaves a session that takes any page.
    method RecoverFlashSession() returns (ok: bool)
      requires Valid() && Told()
      modifies target.Repr(), this`weather, this`now
      ensures Told() && Later(old(weather), weather)
      ensures Valid() && Flash().cells == old(Flash()).cells
      ensures Flash().open == -1 || Flash().open == old(Flash()).open
      ensures ok ==> Pending() == [] && Flash().open == -1 && Flash().Touched() == {}
      ensures ok ==> target.serving && (Opened(Flash()) || (Astray(Flash()) && weather.sags > old(weather.sags)))
      ensures !ok ==> weather.faults >= old(weather.faults) + PAGE_WRITE_ATTEMPTS
      ensures Healthy() && weather == old(weather) ==> ok && forall offset: nat :: offset % 8 == 0 ==> InOrder(offset)
    {
      hide Carry, Concat, Appends, Opened, Astray, Session.Clean, Session.Ready, Session.Image, Session.Touched;
      hide Client.Told;
      ok := false;
      for attempt := 0 to PAGE_WRITE_ATTEMPTS
        invariant Valid() && Flash().cells == old(Flash()).cells && !ok
        invariant Flash().open == -1 || Flash().open == old(Flash()).open
        invariant Told() && Later(old(weather), weather) && weather.faults >= old(weather.faults) + attempt
      {
        ok := RecoverOnce();
        if ok {
          if Healthy() && Opened(Flash()) {
            forall offset: nat | offset % 8 == 0
              ensures InOrder(offset)
            {
              OpenedAppends(Flash(), offset);
            }
          }
          return;
        }
      }
    }

    // The page has been written this far, or the bootloader went astray.
    ghost predicate OnPage(cells: seq<Byte>, others: set<int>, page: nat, data: seq<Byte>)
      requires Valid()
      reads target.Repr()
    {
      || (Pending() == [] && Flash().open == -1 && Underway(Flash(), cells, others, page, data))
      || (Astray(Flash()) && |Pending()| <= 39)
    }

    lemma OnPageMeans(cells: seq<Byte>, others: set<int>, page: nat, data: seq<Byte>)
      requires Valid() && OnPage(cells, others, page, data)
      ensures if Astray(Flash()) then |Pending()| <= 39
        else Pending() == [] && Flash().open == -1 && Underway(Flash(), cells, others, page, data)
    {
    }

    // The next block of a page that has been written up to `offset`.
    method WriteNext(page: nat, offset: nat, block: seq<Byte>,
                     ghost cells: seq<Byte>, ghost others: set<int>, ghost done: seq<Byte>)
      returns (ok: bool)
      requires Valid() && Told() && OnPage(cells, others, page, done)
      requires APP / PAGE_SIZE <= page < PAGES && offset == |done| && offset + |block| <= PAGE_SIZE
      requires 0 < |block| <= FAST_WRITE_SIZE && offset % 8 == 0 && |block| % 8 == 0
      modifies target.Repr(), this`weather, this`now
      ensures Told() && Later(old(weather), weather)
      ensures Valid() && StaysOn(old(Flash()), Flash(), page)
      ensures ok ==> OnPage(cells, others, page, done + block)
      ensures weather.sags == old(weather.sags) ==> target.serving == old(target.serving)
      ensures ok && Astray(old(Flash())) ==> Astray(Flash())
      ensures ok && !Astray(Flash()) && Appends(old(Flash()), page * PAGE_SIZE + offset) ==>
        InOrder(page * PAGE_SIZE + offset + |block|)
      ensures ok && Astray(Flash()) && weather.sags == old(weather.sags) ==>
        Astray(old(Flash())) && Leftover(Pending()) < Leftover(old(Pending()))
      ensures page * PAGE_SIZE + offset >= APP + 8 ==> VectorKept(old(Flash()), Flash())
      ensures weather == old(weather) && old(InOrder(page * PAGE_SIZE + offset)) ==> ok
    {
      hide Carry, Concat, SoFar, StaysOn, Underway, InOnePage, AheadOf, Boots, VectorKept, Client.Told;
      hide Session.Clean, Session.Ready, Session.Image, Session.Touched;
      ghost var before := Flash();
      ghost var address := FLASH_START + page * PAGE_SIZE + offset;
      BlockInPage(page, offset, |block|);
      ok := WriteBlock(FLASH_START + page * PAGE_SIZE + offset, block);
      if ok && !(Astray(Flash()) && |Pending()| <= 39) {
        BlockCloses(before, Flash(), address, block);
        BlockUnderway(before, Flash(), cells, others, page, done, block);
      }
    }

    // One more block of an attempt.
    method WriteOn(page: nat, data: seq<Byte>, offset: nat, end: nat, ghost cells: seq<Byte>, ghost others: set<int>,
                   ghost start: Session, ghost waiting: seq<Byte>, ghost sags: nat) returns (ok: bool)
      requires offset < end <= |data| && end <= offset + FAST_WRITE_SIZE
      requires Valid() && Told() && OnPage(cells, others, page, data[..offset])
      requires APP / PAGE_SIZE <= page < PAGES && |data| <= PAGE_SIZE && offset % 8 == 0 && end % 8 == 0
      requires start.Ok() && sags <= weather.sags
      requires Progress(start, waiting, page, data, Flash(), Pending(), weather.sags - sags, offset)
      requires offset == 0 ==> Flash() == start && Pending() == waiting && weather.sags == sags
      modifies target.Repr(), this`weather, this`now
      ensures Told() && Later(old(weather), weather)
      ensures Valid() && StaysOn(old(Flash()), Flash(), page)
      ensures weather.sags == old(weather.sags) ==> target.serving == old(target.serving)
      ensures ok ==> OnPage(cells, others, page, data[..end])
      ensures ok ==> Progress(start, waiting, page, data, Flash(), Pending(), weather.sags - sags, end)
      ensures ok && Astray(old(Flash())) ==> Astray(Flash())
      ensures ok && !Astray(Flash()) && old(InOrder(page * PAGE_SIZE + offset)) ==> InOrder(page * PAGE_SIZE + end)
      ensures weather == old(weather) && old(InOrder(page * PAGE_SIZE + offset)) ==> ok
    {
      hide Carry, Concat, StaysOn, Client.OnPage, InOnePage, Appends, Boots, Underway, Astray, Target.Valid;
      hide Client.Told;
      hide VectorKept, BootImage, Progress, Session.Clean, Session.Ready, Session.Image, Session.Touched, Session.Ok;
      ghost var before, p, s := Flash(), Pending(), weather.sags;
      OnPageMeans(cells, others, page, data[..offset]);
      ok := WriteNext(page, offset, data[offset..end], cells, others, data[..offset]);
      if ok {
        assert data[..offset] + data[offset..end] == data[..end];
        OnPageMeans(cells, others, page, data[..end]);
        ProgressNext(start, waiting, page, data, cells, others, before, p, s - sags, offset,
                     Flash(), Pending(), weather.sags - sags, end);
      }
    }

    // One attempt at a page, in blocks of `size` bytes.
    method WriteBlocks(page: nat, data: seq<Byte>, size: nat, ghost cells: seq<Byte>,
                       ghost others: set<int>) returns (ok: bool)
      requires Valid() && Told() && OnPage(cells, others, page, [])
      requires APP / PAGE_SIZE <= page < PAGES && |data| <= PAGE_SIZE && |data| % 8 == 0
      requires size == FAST_WRITE_SIZE || size == SAFE_WRITE_SIZE
      modifies target.Repr(), this`weather, this`now
      ensures Told() && Later(old(weather), weather)
      ensures Valid() && StaysOn(old(Flash()), Flash(), page)
      ensures ok ==> OnPage(cells, others, page, data)
      ensures weather.sags == old(weather.sags) ==> target.serving == old(target.serving)
      ensures ok && Astray(old(Flash())) ==> Astray(Flash())
      ensures ok && Astray(Flash()) && !Astray(old(Flash())) && data != [] ==> weather.sags > old(weather.sags)
      ensures ok && !Astray(Flash()) && old(InOrder(page * PAGE_SIZE)) ==> InOrder(page * PAGE_SIZE + |data|)
      ensures ok && Astray(Flash()) && page == APP / PAGE_SIZE && BootImage(data) && old(Pending()) == [] ==>
        |data| <= FOOLED * (weather.sags - old(weather.sags))
      ensures weather == old(weather) && old(InOrder(page * PAGE_SIZE)) ==> ok
    {
      hide Carry, Concat, SoFar, StaysOn, Client.OnPage, InOnePage, Appends, Boots, Underway, Astray, Target.Valid;
      hide Client.Told;
      hide VectorKept, BootImage, Progress, Session.Clean, Session.Ready, Session.Image, Session.Touched, Session.Ok;
      StaysOnTwice(Flash(), Flash(), Flash(), page);
      AppendsNotAstray(Flash(), page * PAGE_SIZE);
      ghost var start, waiting, sags := Flash(), Pending(), weather.sags;
      ProgressStart(start, waiting, page, data);
      var offset := 0;
      assert data[..0] == [];
      while offset < |data|
        invariant offset <= |data| && offset % 8 == 0
        invariant Valid() && OnPage(cells, others, page, data[..offset])
        invariant StaysOn(old(Flash()), Flash(), page)
        invariant weather.sags == old(weather.sags) ==> target.serving == old(target.serving)
        invariant Told() && Later(old(weather), weather)
        invariant !Astray(Flash()) && old(InOrder(page * PAGE_SIZE)) ==> InOrder(page * PAGE_SIZE + offset)
        invariant Progress(start, waiting, page, data, Flash(), Pending(), weather.sags - sags, offset)
        invariant offset == 0 ==> Flash() == start && Pending() == waiting && weather.sags == sags
      {
        var end := Min(offset + size, |data|);
        ghost var before := Flash();
        ProgressMade(start, waiting, page, data, before, Pending(), weather.sags - sags, offset);
        ok := WriteOn(page, data, offset, end, cells, others, start, waiting, sags);
        StaysOnTwice(old(Flash()), before, Flash(), page);
        if !ok {
          return;
        }
        offset := end;
      }
      assert data[..|data|] == data;
      ProgressMade(start, waiting, page, data, Flash(), Pending(), weather.sags - sags, |data|);
      ok := true;
    }

    // The pages from `page` on can be written from scratch, unless the
    // bootloader went astray.
    ghost predicate Free(page: nat)
      requires Valid()
      reads target.Repr()
    {
      || (Pending() == [] && Flash().open == -1 && forall q :: q in Flash().Touched() ==> q < page)
      || (Astray(Flash()) && |Pending()| <= 39)
    }

    // One attempt at a page, from its first block on.
    method TryPage(page: nat, data: seq<Byte>) returns (ok: bool)
      requires Valid() && Told() && Free(page)
      requires APP / PAGE_SIZE <= page < PAGES && 0 < |data| <= PAGE_SIZE && |data| % 8 == 0
      modifies target.Repr(), this`weather, this`now
      ensures Told() && Later(old(weather), weather)
      ensures Valid() && SamePages(old(Flash()).cells, Flash().cells, {page})
      ensures ok ==> Free(page + 1)
      ensures ok ==> Flash().cells == PageImage(old(Flash()).cells, page, data) || Astray(Flash())
      ensures weather.sags == old(weather.sags) ==> target.serving == old(target.serving)
      ensures ok && Astray(old(Flash())) ==> Astray(Flash())
      ensures ok && Astray(Flash()) && !Astray(old(Flash())) ==> weather.sags > old(weather.sags)
      ensures ok && !Astray(Flash()) && old(InOrder(page * PAGE_SIZE)) ==> InOrder(page * PAGE_SIZE + |data|)
      ensures ok && Astray(Flash()) && page == APP / PAGE_SIZE && BootImage(data) && old(Pending()) == [] ==>
        |data| <= FOOLED * (weather.sags - old(weather.sags))
      ensures weather == old(weather) && old(InOrder(page * PAGE_SIZE)) ==> ok
    {
      hide Carry, Concat, Session.Clean, Session.Ready, Session.Image, Session.Touched, PageImage, Appends, Boots;
      hide Client.Told;
      hide Underway, BootVector;
      hide SamePages, StaysOn;
      ghost var before, astray := Flash(), Astray(Flash()) && |Pending()| <= 39;
      ghost var others := if astray then {} else before.Touched();
      if !astray {
        StartPage(before, page);
      }
      SamePagesSelf(before.cells, page);
      ok := WriteBlocks(page, data, if safeWrites then SAFE_WRITE_SIZE else FAST_WRITE_SIZE, before.cells, others);
      StaysHere(before.cells, before, Flash(), page);
      if ok && !(Astray(Flash()) && |Pending()| <= 39) {
        PageDone(before.cells, others, Flash(), page, data);
      }
    }

    lemma Recovered(page: nat)
      requires Valid() && target.serving && Pending() == [] && Flash().open == -1 && Flash().Touched() == {}
      ensures Free(page) && (Healthy() && Opened(Flash()) ==> InOrder(page * PAGE_SIZE))
    {
      hide Session.Clean, Session.Ready, Session.Image, Appends, Opened;
      if Healthy() && Opened(Flash()) {
        OpenedAppends(Flash(), page * PAGE_SIZE);
      }
    }

    lemma InOrderNotAstray(offset: nat)
      requires Valid()
      ensures InOrder(offset) ==> !Astray(Flash())
    {
      hide Appends, Astray;
      AppendsNotAstray(Flash(), offset);
    }

    // A new session, and the page from its first block on.
    method Retry(page: nat, data: seq<Byte>) returns (recovered: bool, ok: bool)
      requires Valid() && Told()
      requires APP / PAGE_SIZE <= page < PAGES && 0 < |data| <= PAGE_SIZE && |data| % 8 == 0
      modifies target.Repr(), this`weather, this`now
      ensures Told() && Later(old(weather), weather)
      ensures Valid() && SamePages(old(Flash()).cells, Flash().cells, {page})
      ensures !recovered ==> !ok && weather.faults >= old(weather.faults) + PAGE_WRITE_ATTEMPTS
      ensures ok ==> Free(page + 1)
      ensures ok ==> Flash().cells == PageImage(old(Flash()).cells, page, data) || Astray(Flash())
      ensures Healthy() && !ok ==> weather.faults > old(weather.faults)
      ensures ok && Healthy() ==>
        if Astray(Flash()) then weather.sags > old(weather.sags) else InOrder(page * PAGE_SIZE + |data|)
      ensures ok && Astray(Flash()) && page == APP / PAGE_SIZE && BootImage(data) ==>
        |data| <= FOOLED * (weather.sags - old(weather.sags))
    {
      hide Carry, Concat, Session.Clean, Session.Ready, Session.Image, Session.Touched, PageImage, Appends, Boots;
      hide Client.Told;
      hide SamePages, BootImage, Opened, Client.InOrder, Client.Free;
      hide Astray, Session.Ok, Target.Valid;
      ghost var cells := Flash().cells;
      SamePagesSelf(cells, page);
      ok := false;
      recovered := RecoverFlashSession();
      if recovered {
        Recovered(page);
        InOrderNotAstray(page * PAGE_SIZE);
        ghost var sags := weather.sags;
        ok := TryPage(page, data);
        MoreSags(|data|, weather.sags - sags, weather.sags - old(weather.sags));
      }
    }

    // A page, retried as a whole after any failure, each time in a new session.
    // On a healthy part it fails only if it met five faults, and goes wrong
    // unnoticed only if the supply failed.
    method WritePage(page: nat, data: seq<Byte>) returns (ok: bool)
      requires Valid() && Told() && Free(page)
      requires APP / PAGE_SIZE <= page < PAGES && 0 < |data| <= PAGE_SIZE && |data| % 8 == 0
      modifies target.Repr(), this`safeWrites, this`weather, this`now
      ensures Told() && Later(old(weather), weather)
      ensures Valid() && SamePages(old(Flash()).cells, Flash().cells, {page})
      ensures ok ==> Free(page + 1)
      // After any failed attempt the rest is written eight bytes at a time.
      ensures old(safeWrites) || !ok ==> safeWrites
      ensures ok ==> Flash().cells == PageImage(old(Flash()).cells, page, data) || Astray(Flash())
      ensures Healthy() && old(InOrder(page * PAGE_SIZE)) && !ok ==>
        weather.faults >= old(weather.faults) + PAGE_WRITE_ATTEMPTS
      ensures Healthy() && old(InOrder(page * PAGE_SIZE)) && ok ==>
        if Astray(Flash()) then weather.sags > old(weather.sags) else InOrder(page * PAGE_SIZE + |data|)
      ensures ok && Astray(Flash()) && page == APP / PAGE_SIZE && BootImage(data) && old(Pending()) == [] ==>
        |data| <= FOOLED * (weather.sags - old(weather.sags))
    {
      hide Carry, Concat, Session.Clean, Session.Ready, Session.Image, Session.Touched, PageImage, Appends, Boots;
      hide Client.Told;
      hide SamePages, BootImage, Opened, Client.InOrder, Client.Free;
      hide Astray, Session.Ok, Target.Valid;
      ok := false;
      ghost var cells := Flash().cells;
      SamePagesSelf(cells, page);
      InOrderNotAstray(page * PAGE_SIZE);
      for attempt := 0 to PAGE_WRITE_ATTEMPTS
        invariant Valid() && SamePages(cells, Flash().cells, {page})
        invariant attempt == 0 ==> Flash() == old(Flash()) && Free(page) && Pending() == old(Pending())
        invariant attempt == 0 ==> InOrder(page * PAGE_SIZE) == old(InOrder(page * PAGE_SIZE))
        invariant Told() && Later(old(weather), weather) && (old(safeWrites) || attempt > 0 ==> safeWrites)
        invariant Healthy() && old(InOrder(page * PAGE_SIZE)) ==> weather.faults >= old(weather.faults) + attempt
      {
        ghost var before, sags := Flash().cells, weather.sags;
        var recovered := true;
        if attempt > 0 {
          recovered, ok := Retry(page, data);
        } else {
          ok := TryPage(page, data);
        }
        SamePagesTwice(cells, before, Flash().cells, page);
        if !recovered {
          return;
        }
        if ok {
          SamePageImage(cells, before, page, data);
          MoreSags(|data|, weather.sags - sags, weather.sags - old(weather.sags));
          return;
        }
        safeWrites := true;
      }
    }

    // Every page of the padded image. If a restart went unnoticed, the memory
    // may not be as promised, but then there is nothing in it to start.
    method WritePages(data: seq<Byte>) returns (ok: bool, ghost marks: seq<nat>)
      requires Valid() && Told() && Pending() == [] && Flash().open == -1 && Flash().Touched() == {}
      requires |data| <= MAX_IMAGE && |data| % 8 == 0
      modifies target.Repr(), this`safeWrites, this`weather, this`now
      ensures Told() && Later(old(weather), weather)
      ensures Valid() && OnlyApp(old(Flash()).cells, Flash().cells, |data|)
      ensures ok ==> Settled(Flash(), Pending()) && Flash().open == -1
      ensures ok ==> Flash().cells == Flashed(old(Flash()).cells, data) || !Boots(Flash().cells)
      ensures Marked(marks, old(weather).faults, weather.faults)
      ensures Healthy() && old(InOrder(APP)) && Fair(marks, old(weather), weather, data) ==>
        ok && Flash().cells == Flashed(old(Flash()).cells, data) && InOrder(APP + |data|)
    {
      hide Carry, Concat, Session.Clean, Session.Ready, Session.Image, Session.Touched, PageImage, Flashed, OnlyApp;
      hide Client.Told;
      hide SamePages, Marked, Fair, Guarded, BootImage, Client.InOrder;
      hide AheadOf, Boots, Appends, Astray, Target.Valid;
      ghost var cells := Flash().cells;
      marks := [weather.faults];
      NothingMarked(weather.faults);
      FlashedNothing(cells, data);
      var page, offset := 0, 0;
      while offset < |data|
        invariant offset == Min(page * PAGE_SIZE, |data|)
        invariant Valid() && Free(APP / PAGE_SIZE + page) && OnlyApp(cells, Flash().cells, offset)
        invariant Flash().cells == Flashed(cells, data[..offset]) || (page > 0 && !Boots(Flash().cells))
        invariant Told() && Later(old(weather), weather) && Marked(marks, old(weather).faults, weather.faults)
        invariant offset == 0 ==> Pending() == []
        invariant Healthy() && old(InOrder(APP)) && Fair(marks, old(weather), weather, data) ==>
          && Flash().cells == Flashed(cells, data[..offset]) && InOrder(APP + offset)
          && (Guarded(data) && page > 0 ==> Boots(Flash().cells))
      {
        var end := Min(offset + PAGE_SIZE, |data|);
        ghost var before, earlier, w := Flash(), marks, weather;
        assert (APP / PAGE_SIZE + page) * PAGE_SIZE == APP + offset;
        ok := WritePage(APP / PAGE_SIZE + page, data[offset..end]);
        marks := marks + [weather.faults];
        FairNext(earlier, old(weather), w, weather, data);
        OnlyAppPage(cells, before.cells, Flash().cells, page, end);
        if !ok {
          OnlyAppMore(cells, Flash().cells, end, |data|);
          return;
        }
        FlashedNext(cells, data, page, end);
        AstrayBootsNot(Flash());
        if page > 0 {
          LaterPage(before.cells, Flash().cells, page);
        } else {
          FirstPage(cells, data, end, weather.sags - w.sags);
        }
        page, offset := page + 1, end;
      }
      assert data[..|data|] == data;
      AstrayBootsNot(Flash());
      ok := true;
    }

    method Lock() returns (ok: bool)
      requires Valid() && Told() && Settled(Flash(), Pending()) && Flash().open == -1
      modifies target.Repr(), this`weather, this`now
      ensures Told() && Later(old(weather), weather)
      ensures Valid() && Flash().cells == old(Flash()).cells && Flash().open == -1
      ensures ok ==> Pending() == []
      ensures weather.sags == old(weather.sags) ==> target.serving == old(target.serving)
      ensures weather == old(weather) && target.serving && old(Pending()) == [] ==> ok
    {
      hide Met, Fared, Heard, Executed, Confined, OneReply, Strip, Carry, Concat, BannerText, Parse, Succeeds, Boots;
      hide Client.Told;
      hide Session.Clean, Session.Ready, Session.Image, Session.Touched;
      LockOneLine();
      ghost var v, p, command := Flash(), Pending(), CommandLine.Command.Lock;
      var line, reply, r := Command(Ascii("lock"));
      SparesExchange(command, v, p, Banner(), r, reply, Flash(), Pending());
      ok := line.Some?;
      if ok {
        LockSettles(v, p, Banner(), r, reply.value, Flash(), Pending());
      }
      if weather == old(weather) && target.serving && p == [] {
        PlainRun(command, v, p, Banner(), r, reply, Flash(), Pending());
        LockDone(v, Flash(), r.after, r.effect);
      }
    }

    // ---- Reading back ----------------------------------------------------------

    // One read-back of at most 32 bytes, whatever answers to earlier attempts
    // are still waiting.
    method VerifyOnce(address: nat, expected: seq<Byte>) returns (ok: bool)
      requires Valid() && Told() && Flash().open == -1
      requires 0 < |expected| <= 32 && FLASH_START <= address && address + |expected| <= FLASH_END
      requires StaleAnswers(Flash(), Pending(), Banner(), address, |expected|)
      modifies target.Repr(), this`weather, this`now
      ensures Told() && Later(old(weather), weather)
      ensures Valid() && Flash().cells == old(Flash()).cells && Flash().open == -1
      ensures StaleAnswers(Flash(), Pending(), Banner(), address, |expected|)
      ensures ok ==> Held(Flash().cells, address, |expected|) == expected
      ensures ok && |expected| == 32 ==> Pending() == []
      ensures weather.sags == old(weather.sags) ==> target.serving == old(target.serving)
      ensures weather == old(weather) && target.serving && old(Pending()) == [] ==>
        Held(Flash().cells, address, |expected|) == expected ==> ok
    {
      hide Met, Fared, Heard, Executed, Confined, OneReply, Strip, Fields, Carry, Concat, Parse, Succeeds, Boots;
      hide Client.Told;
      hide OneLine;
      hide ReadReply, SpellsBlock, HexFold, Held, UpperText, UpperBlock, ReadLine, HostRead, BannerText, StaleAnswers;
      hide Session.Clean, Session.Ready, Session.Image, Session.Touched;
      ghost var v, p, n := Flash(), Pending(), |expected|;
      ghost var command, data := HostRead(address, n), Held(Flash().cells, address, n);
      ReadLineRead(address, |expected|);
      HostReadIs(address, |expected|);
      var line, reply, r := Command(ReadLine(address, |expected|));
      ReadStaysStale(address, n, v, p, Banner(), r, reply, Flash(), Pending());
      ok := false;
      if line.Some? {
        ok := Matches(line.value, address, expected);
        if ok {
          ReadAccepted(address, expected, v, p, target.server.date, target.server.time, r, reply.value, Flash(), Pending());
        }
      }
      if weather == old(weather) && target.serving && p == [] {
        PlainRun(command, v, p, Banner(), r, reply, Flash(), Pending());
        ReadDone(address, n, v, Flash(), p, r.after, r.effect);
        PutReadFirst(address, data);
        ReadSucceeds(address, data);
        ReadAgain(address, data);
      }
    }

    // The line names the address and spells the very block.
    method Matches(line: seq<Byte>, address: nat, expected: seq<Byte>) returns (ok: bool)
      requires address > 0
      ensures ok <==> |Fields(line)| == 2 && HexFold(Fields(line)[0]) == Some(address) && SpellsBlock(Fields(line)[1], expected)
    {
      hide Fields, SpellsBlock, Spelled;
      var fields := Fields(line);
      if |fields| != 2 {
        return false;
      }
      var echoed := ParseInt(fields[0]);
      var actual := FromHex(fields[1]);
      if actual.Some? && SpellsBlock(fields[1], expected) {
        SpellsOne(fields[1], actual.value, expected);
      }
      if SpellsBlock(fields[1], expected) {
        BlockSpelled(fields[1], expected);
      }
      ok := echoed == Some(address) && actual == Some(expected);
    }

    // Reads a block back, a few times if need be; answers to earlier attempts
    // may come late, and the last ones may still be waiting.
    method ReadVerifiedBlock(address: nat, expected: seq<Byte>) returns (ok: bool)
      requires Valid() && Told() && Pending() == [] && Flash().open == -1
      requires 0 < |expected| <= 32 && FLASH_START <= address && address + |expected| <= FLASH_END
      modifies target.Repr(), this`weather, this`now
      ensures Told() && Later(old(weather), weather)
      ensures Valid() && Flash().cells == old(Flash()).cells && Flash().open == -1
      ensures ok ==> Held(Flash().cells, address, |expected|) == expected
      ensures ok && |expected| == 32 ==> Pending() == []
      ensures weather.sags == old(weather.sags) ==> target.serving == old(target.serving)
      ensures weather == old(weather) && target.serving && Held(Flash().cells, address, |expected|) == expected ==> ok
    {
      hide Carry, Concat, Held, BannerText, ReadReply, Stale, Client.Told;
      ok := false;
      StaleStart(ReadReply(address, Held(Flash().cells, address, |expected|)), Banner());
      for attempt := 0 to VERIFY_ATTEMPTS
        invariant Valid() && Flash().cells == old(Flash()).cells && Flash().open == -1 && !ok
        invariant StaleAnswers(Flash(), Pending(), Banner(), address, |expected|)
        invariant attempt == 0 ==> Pending() == []
        invariant weather.sags == old(weather.sags) ==> target.serving == old(target.serving)
        invariant Told() && Later(old(weather), weather)
        invariant weather == old(weather) && target.serving && Held(Flash().cells, address, |expected|) == expected ==>
          attempt == 0
      {
        ok := VerifyOnce(address, expected);
        if ok {
          return;
        }
      }
    }

    method VerifyImage(image: seq<Byte>) returns (ok: bool)
      requires Valid() && Told() && Pending() == [] && Flash().open == -1 && |image| <= MAX_IMAGE
      modifies target.Repr(), this`weather, this`now
      ensures Told() && Later(old(weather), weather)
      ensures Valid() && Flash().cells == old(Flash()).cells && Flash().open == -1
      ensures ok ==> Flash().cells[APP..APP + |image|] == image
      ensures weather.sags == old(weather.sags) ==> target.serving == old(target.serving)
      ensures weather == old(weather) && target.serving && Flash().cells[APP..APP + |image|] == image ==> ok
    {
      hide Carry, Concat, Session.Clean, Session.Ready, Session.Image, Session.Touched, Target.Valid, Held;
      hide Client.Told;
      ghost var cells := Flash().cells;
      var offset := 0;
      assert cells[APP..APP + 0] == image[..0];
      while offset < |image|
        invariant offset <= |image| && cells[APP..APP + offset] == image[..offset]
        invariant Valid() && Flash().cells == cells && Flash().open == -1
        invariant offset < |image| ==> Pending() == []
        invariant weather.sags == old(weather.sags) ==> target.serving == old(target.serving)
        invariant Told() && Later(old(weather), weather)
      {
        var end := Min(offset + 32, |image|);
        HeldIs(cells, offset, end);
        if cells[APP..APP + |image|] == image {
          SliceOfImage(cells, image, offset, end);
        }
        ok := ReadVerifiedBlock(APP_START + offset, image[offset..end]);
        if !ok {
          return;
        }
        SliceExtends(cells, image, offset, end);
        offset := end;
      }
      assert image[..|image|] == image;
      ok := true;
    }

    // ---- The whole ---------------------------------------------------------------

    // The last command: its effect is not waited for.
    method SendReset()
      requires Valid() && Told() && Flash().open == -1
      modifies target.Repr(), this`weather, this`now
      ensures Told() && Later(old(weather), weather)
      ensures Valid() && Flash().cells == old(Flash()).cells && Flash().open == -1
      ensures weather == old(weather) && old(target.serving) ==> target.serving == !Boots(Flash().cells)
    {
      hide Decode, BuildWrite, Executed, Confined, Parse, Carry, Concat, LineEnd, Boots, BannerText, Client.Told;
      hide Session.Clean, Session.Ready, Session.Image, Session.Touched;
      ResetLineParses();
      var payload := Ascii("reset") + [LF];
      WriteFrameDecodes(payload, []);
      assert Received([], Tunnel(payload, false)) == payload;
      ghost var _ := Sag();
      ghost var v, p, serving := Flash(), Pending(), target.serving;
      var e := Next();
      if e.Calm? {
        ghost var effect := target.Receive(Frame(HOST_ID, BOOT_ID, BuildWrite(payload) + []));
        if serving {
          ResetLocks(p, Pending(), v, Flash(), effect);
        }
      } else if target.serving && e == PowerCut {
        target.Brownout(CommandLine.Command.Reset);
      }
    }

    // `unlock`, every page, `lock`.
    method ProgramImage(image: seq<Byte>) returns (ok: bool, ghost marks: seq<nat>)
      requires Valid() && Told() && Pending() == [] && |image| <= MAX_IMAGE
      modifies target.Repr(), this`safeWrites, this`weather, this`now
      ensures Told() && Later(old(weather), weather)
      ensures Valid() && OnlyApp(old(Flash()).cells, Flash().cells, |image|)
      ensures ok ==> Pending() == [] && Flash().open == -1
      ensures ok ==> Flash().cells == Flashed(old(Flash()).cells, image) || !Boots(Flash().cells)
      ensures marks != [] && Marked(marks, marks[0], marks[|marks| - 1])
      ensures old(weather).faults <= marks[0] && marks[|marks| - 1] <= weather.faults
      ensures Healthy() && old(target.serving) && Bearable(marks, old(weather), weather, image) ==>
        ok && target.serving && Flash().cells == Flashed(old(Flash()).cells, image)
    {
      hide Carry, Concat, Session.Clean, Session.Ready, Session.Image, Session.Touched, Flashed, OnlyApp, Appends;
      hide Client.Told;
      hide Boots, BootVector, Opened, Astray, Endured;
      ghost var cells := Flash().cells;
      marks := [weather.faults];
      OnlyAppSame(cells, |image|);
      PaddedErased(cells, image);
      PaddedGuarded(image);
      ok := Unlock();
      if !ok {
        return;
      }
      if Healthy() && Opened(Flash()) {
        OpenedAppends(Flash(), APP);
      }
      ok, marks := WritePages(Padded(image));
      OnlyAppPadded(cells, Flash().cells, |image|, |Padded(image)|);
      if ok {
        ok := Lock();
      }
    }

    // Whatever was in flash, whichever frames were lost and whenever the
    // supply failed: when `flash()` returns, the application is the image, and
    // no page outside it was touched even when it fails. The rest of the last
    // page is all ones, for every image the bootloader would start and for
    // every image of whole pages. On a healthy part it returns that way if no
    // page met five faults, nothing else met any, and the supply held or the
    // image is guarded.
    method FlashImage(image: seq<Byte>) returns (ok: bool, ghost marks: seq<nat>, ghost end: Weather)
      requires Valid() && Told() && Pending() == []
      modifies target.Repr(), this`safeWrites, this`weather, this`now
      ensures Told() && Later(old(weather), weather)
      ensures Valid() && OnlyApp(old(Flash()).cells, Flash().cells, |image|)
      ensures ok ==> 0 < |image| <= MAX_IMAGE && Flash().open == -1
      ensures ok ==> Flash().cells[APP..APP + |image|] == image
      ensures ok && (BootImage(image) || |image| % PAGE_SIZE == 0) ==> Flash().cells == Flashed(old(Flash()).cells, image)
      ensures marks != [] && Marked(marks, marks[0], marks[|marks| - 1]) && Later(old(weather), end) && Later(end, weather)
      ensures old(weather).faults <= marks[0] && marks[|marks| - 1] <= end.faults
      ensures Healthy() && old(target.serving) && 0 < |image| <= MAX_IMAGE && Bearable(marks, old(weather), end, image) ==>
        ok && Flash().cells == Flashed(old(Flash()).cells, image)
      ensures Healthy() && old(target.serving) && 0 < |image| <= MAX_IMAGE && weather == old(weather) ==>
        ok && Flash().cells == Flashed(old(Flash()).cells, image) && target.serving == !BootImage(image)
    {
      hide Carry, Concat, Session.Clean, Session.Ready, Session.Image, Session.Touched, Flashed, OnlyApp, Boots;
      hide Client.Told;
      hide BootVector, Marked, Endured;
      ghost var cells := Flash().cells;
      marks, end := [weather.faults], weather;
      NothingMarked(weather.faults);
      OnlyAppSame(cells, |image|);
      if image == [] || |image| > MAX_IMAGE {
        return false, marks, end;
      }
      FlashedImage(cells, image);
      ok, marks := ProgramImage(image);
      end := weather;
      CalmBearable(marks, old(weather), end, image);
      if ok {
        ok := VerifyImage(image);
        end := weather;
        CalmBearable(marks, old(weather), end, image);
        if ok {
          if BootImage(image) {
            ImageBoots(Flash().cells, image);
          }
          if |image| % PAGE_SIZE == 0 {
            WholePages(cells, Flash().cells, image);
          }
          FlashedBoots(cells, image);
          SendReset();
        }
      }
    }

    // The whole program: enter the bootloader, check it answers, flash.
    method FlashFile(image: seq<Byte>)
      returns (ok: bool, ghost begin: Weather, ghost marks: seq<nat>, ghost end: Weather)
      requires Valid() && Told()
      modifies target.Repr(), this`safeWrites, this`weather, this`now
      ensures Told() && Later(old(weather), weather)
      ensures Valid() && OnlyApp(old(Flash()).cells, Flash().cells, |image|)
      ensures ok ==> 0 < |image| <= MAX_IMAGE && Flash().cells[APP..APP + |image|] == image
      ensures ok && (BootImage(image) || |image| % PAGE_SIZE == 0) ==> Flash().cells == Flashed(old(Flash()).cells, image)
      ensures marks != [] && Later(old(weather), begin) && Later(begin, end) && Later(end, weather)
      ensures Healthy() && 0 < |image| <= MAX_IMAGE && begin == old(weather) && Bearable(marks, begin, end, image) ==>
        ok && Flash().cells == Flashed(old(Flash()).cells, image)
      ensures Healthy() && 0 < |image| <= MAX_IMAGE && weather == old(weather) ==>
        ok && Flash().cells == Flashed(old(Flash()).cells, image) && target.serving == !BootImage(image)
    {
      hide Carry, Concat, Session.Clean, Session.Ready, Session.Image, Session.Touched, Flashed, OnlyApp, Boots;
      hide Client.Told;
      hide BootVector, Marked, Endured, Bearable;
      OnlyAppSame(Flash().cells, |image|);
      Enter();
      var line := DrainAndEcho();
      assert Ascii("ready")[0..0 + 5] == Ascii("ready");
      ok := line.Some? && Contains(line.value, Ascii("ready"));
      begin, marks, end := weather, [weather.faults], weather;
      if ok {
        ok, marks, end := FlashImage(image);
      }
    }

    // ---- What success does not promise -------------------------------------------

    // The run that loses the padding, for any other image: the image is in
    // flash already, and power fails whenever a `w` line is sent. The host takes
    // the banners for replies, finds the image, and leaves the old rest of the
    // page.
    method LosesPadding(image: seq<Byte>) returns (ok: bool)
      requires Valid() && target.serving && Pending() == [] && Flash().open == -1
      requires 0 < |image| <= MAX_IMAGE && |image| % PAGE_SIZE != 0 && !Boots(Flash().cells)
      requires Flash().cells[APP..APP + |image|] == image && Flash().cells[APP + |image|] != ERASED
      modifies target.Repr()
      ensures Valid() && ok && Flash().cells == old(Flash()).cells != Flashed(old(Flash()).cells, image)
    {
      hide Carry, Concat, Flashed, BannerText, Boots, Session.Clean, Session.Ready, Session.Image, Session.Touched;
      ghost var cells := Flash().cells;
      PaddingMissing(cells, image);
      ok := UnlockOnce();
      var data := Padded(image);
      var page := 0;
      while page < |data| && ok
        invariant page <= |data| + PAGE_SIZE && ok
        invariant Valid() && target.serving && Pending() == [] && Flash().open == -1 && Flash().cells == cells
      {
        var end, offset := Min(page + PAGE_SIZE, |data|), page;
        while offset < end && ok
          invariant ok && Valid() && target.serving && Pending() == [] && Flash().open == -1 && Flash().cells == cells
        {
          ok := RestartOnce();
          offset := offset + FAST_WRITE_SIZE;
        }
        page := page + PAGE_SIZE;
      }
      ok := LockOnce();
      var offset := 0;
      while offset < |image| && ok
        invariant ok && offset <= |image| && cells[APP..APP + |image|] == image
        invariant Valid() && target.serving && Pending() == [] && Flash().open == -1 && Flash().cells == cells
      {
        var end := Min(offset + 32, |image|);
        SliceOfImage(cells, image, offset, end);
        HeldIs(cells, offset, end);
        ok := ReadOnce(APP_START + offset, image[offset..end]);
        offset := end;
      }
    }

    // The host's judgement of a reply.
    method Judge(reply: seq<Byte>) returns (ok: bool)
      ensures ok <==> LF in reply && !(Ascii("ERR") <= Strip(reply))
    {
      ok := LF in reply && !(Ascii("ERR") <= Strip(reply));
    }

    // Polls a response with nothing lost.
    method Listen() returns (reply: seq<Byte>)
      requires Valid() && target.serving && OneReply(Pending())
      modifies target.Repr()
      ensures Valid() && Flash() == old(Flash()) && target.serving
      ensures reply == old(Pending()) && Pending() == []
    {
      hide Carry, Concat, Boots, Session.Image, Session.Touched;
      ghost var p := Pending();
      var first := Ask();
      reply := first.value;
      if |reply| == MAX_PAYLOAD {
        var second := Ask();
        reply := reply + second.value;
      }
    }

    method UnlockOnce() returns (ok: bool)
      requires Valid() && target.serving && Pending() == []
      modifies target.Repr()
      ensures Valid() && target.serving && ok && Flash().cells == old(Flash()).cells && Flash().open == -1 && Pending() == []
      ensures Opened(Flash()) && Flash().Touched() == {}
    {
      hide Executed, Confined, Carry, Concat, Parse, Strip, Boots, Session.Clean, Session.Ready, Session.Image;
      hide Session.Touched;
      ghost var v := Flash();
      UnlockLineParses();
      ghost var effect := Deliver(Ascii("unlock"));
      UnlockDone(v, Flash(), Pending(), effect);
      FreshStart(v, Flash(), Pending(), effect);
      var reply := Listen();
      ok := Judge(reply);
    }

    // Power fails as the frame of a `w` line is sent.
    method RestartOnce() returns (ok: bool)
      requires Valid() && !Boots(Flash().cells)
      modifies target.Repr()
      ensures Valid() && target.serving && ok && Flash().cells == old(Flash()).cells && Flash().open == -1 && Pending() == []
    {
      hide Confined, Carry, Concat, Strip, BannerText, Boots, Session.Clean, Session.Ready, Session.Image;
      hide Session.Touched;
      target.Restart();
      BannerSucceeds(target.server.date, target.server.time);
      var reply := Listen();
      ok := Judge(reply);
    }

    method LockOnce() returns (ok: bool)
      requires Valid() && target.serving && Pending() == [] && Flash().open == -1
      modifies target.Repr()
      ensures Valid() && target.serving && ok && Flash().cells == old(Flash()).cells && Flash().open == -1 && Pending() == []
    {
      hide Executed, Confined, Carry, Concat, Parse, Strip, Boots, Session.Clean, Session.Ready, Session.Image;
      hide Session.Touched;
      ghost var v := Flash();
      LockOneLine();
      ghost var effect := Deliver(Ascii("lock"));
      LockDone(v, Flash(), Pending(), effect);
      var reply := Listen();
      ok := Judge(reply);
    }

    method ReadOnce(address: nat, expected: seq<Byte>) returns (ok: bool)
      requires Valid() && target.serving && Pending() == [] && Flash().open == -1
      requires 0 < |expected| <= 32 && FLASH_START <= address && address + |expected| <= FLASH_END
      modifies target.Repr()
      ensures Valid() && target.serving && Flash().cells == old(Flash()).cells && Flash().open == -1 && Pending() == []
      ensures ok <==> Held(Flash().cells, address, |expected|) == expected
    {
      hide Executed, Confined, Carry, Concat, Parse, Held, HexText, SizeText, ReadLine, ReadReply, HostRead, Strip;
      hide Fields, Boots;
      hide SpellsBlock, UpperText, UpperBlock, HexFold, OneReply;
      hide Session.Clean, Session.Ready, Session.Image, Session.Touched;
      ghost var v, data := Flash(), Held(Flash().cells, address, |expected|);
      ReadLineRead(address, |expected|);
      HostReadIs(address, |expected|);
      ghost var effect := Deliver(ReadLine(address, |expected|));
      ReadDone(address, |expected|, v, Flash(), [], Pending(), effect);
      PutReadFirst(address, data);
      ReadSucceeds(address, data);
      ReadAgain(address, data);
      var reply := Listen();
      ok := Judge(reply);
      if ok {
        ok := Matches(Strip(reply), address, expected);
        if ok {
          SpellsOne(UpperBlock(data), data, expected);
        }
      }
    }

    method WriteOnce(address: nat, block: seq<Byte>) returns (ok: bool)
      requires Valid() && target.serving && Pending() == []
      requires APP_START <= address && InOnePage(address, |block|) && 0 < |block| <= FAST_WRITE_SIZE
      requires AppendsAt(Flash(), address)
      modifies target.Repr()
      ensures Valid() && target.serving && ok && Pending() == [] && SoFar(old(Flash()), Flash(), address, block)
      ensures AppendsAt(Flash(), address + |block|)
    {
      hide Executed, Confined, Carry, Concat, Parse, Strip, Boots, Session.Clean, Session.Ready, Session.Image;
      hide Session.Touched, SoFar, AppendsAt, HexText, HexBlock, WriteLine, OneLine, HostWrite;
      ghost var v := Flash();
      WriteLineRead(address, block);
      HostWriteIs(address, block);
      ghost var effect := Deliver(WriteLine(address, block));
      BlockAccepted(address, block, v, Flash(), Pending(), effect);
      WriteDone(address, block, v, Flash(), [], Pending(), effect);
      if IsError(Pending()) {
        StripKeepsError(Pending());
      }
      var reply := Listen();
      ok := Judge(reply);
    }

    // The first bytes of a page, block by block, with nothing going wrong.
    method WritePart(page: nat, data: seq<Byte>, ghost cells: seq<Byte>, ghost others: set<int>)
      requires Valid() && InOrder(page * PAGE_SIZE) && Flash().open == -1 && Underway(Flash(), cells, others, page, [])
      requires APP / PAGE_SIZE <= page < PAGES && |data| <= PAGE_SIZE && |data| % 8 == 0
      modifies target.Repr()
      ensures Valid() && InOrder(page * PAGE_SIZE + |data|) && Flash().open == -1
      ensures Underway(Flash(), cells, others, page, data)
    {
      hide Carry, Concat, SoFar, Underway, InOnePage, Appends, Boots, Target.Valid;
      hide Session.Clean, Session.Ready, Session.Image, Session.Touched;
      var offset := 0;
      assert data[..0] == [];
      while offset < |data|
        invariant offset <= |data| && offset % 8 == 0
        invariant Valid() && InOrder(page * PAGE_SIZE + offset) && Flash().open == -1
        invariant Underway(Flash(), cells, others, page, data[..offset])
      {
        var end := Min(offset + FAST_WRITE_SIZE, |data|);
        PartBlock(page, offset, data[offset..end], cells, others, data[..offset]);
        assert data[..offset] + data[offset..end] == data[..end];
        offset := end;
      }
      assert data[..|data|] == data;
    }

    method PartBlock(page: nat, offset: nat, block: seq<Byte>, ghost cells: seq<Byte>, ghost others: set<int>,
                     ghost done: seq<Byte>)
      requires Valid() && InOrder(page * PAGE_SIZE + offset) && Flash().open == -1
      requires Underway(Flash(), cells, others, page, done) && offset == |done|
      requires APP / PAGE_SIZE <= page < PAGES && offset + |block| <= PAGE_SIZE && offset % 8 == 0
      requires 0 < |block| <= FAST_WRITE_SIZE && |block| % 8 == 0
      modifies target.Repr()
      ensures Valid() && InOrder(page * PAGE_SIZE + offset + |block|) && Flash().open == -1
      ensures Underway(Flash(), cells, others, page, done + block)
    {
      hide Carry, Concat, SoFar, Underway, InOnePage, Appends, Boots, Target.Valid;
      hide Session.Clean, Session.Ready, Session.Image, Session.Touched;
      ghost var before := Flash();
      var address := FLASH_START + page * PAGE_SIZE + offset;
      BlockInPage(page, offset, |block|);
      var _ := WriteOnce(address, block);
      BlockCloses(before, Flash(), address, block);
      BlockUnderway(before, Flash(), cells, others, page, done, block);
    }

    // Whole pages first, then what there is of the last one.
    method WriteUpTo(data: seq<Byte>, ghost cells: seq<Byte>)
      requires Valid() && InOrder(APP) && Flash().open == -1 && Flash().Touched() == {} && Flash().cells == cells
      requires |data| <= MAX_IMAGE && |data| % 8 == 0
      modifies target.Repr()
      ensures Valid() && target.serving && Pending() == [] && Flash().open == -1
      ensures Flash().cells == Flashed(cells, data)
    {
      hide Carry, Concat, Underway, Appends, Boots, Flashed, PageImage, Target.Valid;
      hide Session.Clean, Session.Ready, Session.Image, Session.Touched;
      FlashedNothing(cells, data);
      var page, offset := 0, 0;
      while offset < |data|
        invariant offset == Min(page * PAGE_SIZE, |data|)
        invariant Valid() && target.serving && Pending() == [] && Flash().open == -1
        invariant offset < |data| || offset == 0 ==> InOrder(APP + offset)
        invariant forall q :: q in Flash().Touched() ==> q < APP / PAGE_SIZE + page
        invariant Flash().cells == Flashed(cells, data[..offset])
      {
        var end := Min(offset + PAGE_SIZE, |data|);
        ghost var before := Flash();
        assert (APP / PAGE_SIZE + page) * PAGE_SIZE == APP + offset;
        StartPage(before, APP / PAGE_SIZE + page);
        WritePart(APP / PAGE_SIZE + page, data[offset..end], before.cells, before.Touched());
        PageDone(before.cells, before.Touched(), Flash(), APP / PAGE_SIZE + page, data[offset..end]);
        FlashedNext(cells, data, page, end);
        page, offset := page + 1, end;
      }
      assert data[..|data|] == data;
    }

    // The run that one supply failure defeats, for an image the bootloader would
    // not start: power fails as the frame of the last block is sent, and the
    // banner is taken for its reply. Nothing else goes wrong, and the page is
    // not written again.
    method LosesBlock(image: seq<Byte>) returns (ok: bool)
      requires Valid() && Told() && Healthy() && target.serving && Pending() == []
      requires |image| <= MAX_IMAGE && !BootImage(image) && Exposed(image) && events(now) == SupplyFails
      modifies target.Repr(), this`weather, this`now
      ensures Valid() && !ok && weather == old(weather).Sagged()
      ensures Flash().cells == Flashed(old(Flash()).cells, Padded(image)[..LastBlock(|Padded(image)|)])
      ensures Flash().cells[APP..APP + |image|] != image
    {
      hide Carry, Concat, BannerText, Boots, BootImage, Exposed, Held, Appends, Opened, Flashed, Client.Told;
      hide Session.Clean, Session.Ready, Session.Image, Session.Touched;
      ghost var cells := Flash().cells;
      assert image != [] by {
        ExposedSome(image);
      }
      BlockMissing(cells, image);
      LastBlockAligned(|Padded(image)|);
      ok := UnlockOnce();
      OpenedAppends(Flash(), APP);
      WriteUpTo(Padded(image)[..LastBlock(|Padded(image)|)], cells);
      ok := RestartOnce();
      var _ := Next();
      ok := LockOnce();
      ok := ReadBack(image);
    }

    // The read-back of an image that is not in flash.
    method ReadBack(image: seq<Byte>) returns (ok: bool)
      requires Valid() && target.serving && Pending() == [] && Flash().open == -1
      requires |image| <= MAX_IMAGE && Flash().cells[APP..APP + |image|] != image
      modifies target.Repr()
      ensures Valid() && !ok && Flash().cells == old(Flash()).cells
    {
      hide Carry, Concat, Held, Boots, Session.Clean, Session.Ready, Session.Image, Session.Touched;
      ghost var cells := Flash().cells;
      var offset := 0;
      assert cells[APP..APP + 0] == image[..0] && image[..|image|] == image;
      while offset < |image|
        invariant offset <= |image| && cells[APP..APP + offset] == image[..offset]
        invariant Valid() && target.serving && Pending() == [] && Flash().open == -1 && Flash().cells == cells
      {
        var end := Min(offset + 32, |image|);
        HeldIs(cells, offset, end);
        ok := ReadOnce(APP_START + offset, image[offset..end]);
        if !ok {
          ok := ReadMissing(APP_START + offset, image[offset..end]);
          return;
        }
        SliceExtends(cells, image, offset, end);
        offset := end;
      }
      assert false;
    }

    method ReadMissing(address: nat, expected: seq<Byte>) returns (ok: bool)
      requires Valid() && target.serving && Pending() == [] && Flash().open == -1
      requires 0 < |expected| <= 32 && FLASH_START <= address && address + |expected| <= FLASH_END
      requires Held(Flash().cells, address, |expected|) != expected
      modifies target.Repr()
      ensures Valid() && !ok && Flash().cells == old(Flash()).cells
    {
      hide Carry, Concat, Held, Session.Clean, Session.Ready, Session.Image, Session.Touched;
      ok := false;
      for attempt := 0 to VERIFY_ATTEMPTS
        invariant Valid() && target.serving && Pending() == [] && Flash().open == -1 && !ok
        invariant Flash().cells == old(Flash()).cells
      {
        ok := ReadOnce(address, expected);
      }
    }
  }
}
