// The bootloader's command server: CAN frames in, command lines executed,
// response bytes handed out on request.
module CommandServer {
  import opened Octets
  import opened NorFlash
  import opened FlashWriter
  import opened Codec
  import opened CommandLine
  import opened Buffers

  const CLIENT_TO_SERVER: nat := 0x40
  const SERVER_TO_CLIENT: nat := 0x41
  const CLIENT_POLL_SERVER: nat := 0x42
  const TUNNEL_CHANNEL: nat := 1
  const MAX_PAYLOAD: nat := 61

  // A received CAN frame: the two identifier bytes and up to 64 data bytes.
  datatype Frame = Frame(source: int, dest: int, data: seq<Byte>)

  // What a frame asks of the server.
  datatype Request = Ignored | Tunnel(bytes: seq<Byte>, query: bool) | Poll(limit: nat, query: bool)

  function Decode(id: int, frame: Frame): (r: Request)
  {
    if frame.dest != id && frame.dest != 0x7F then Ignored else
    var (subframe, p) := DeviceVaruint(frame.data);
    if subframe != Some(CLIENT_TO_SERVER) && subframe != Some(CLIENT_POLL_SERVER) then Ignored else
    var (channel, q) := DeviceVaruint(frame.data[p..]);
    if channel != Some(TUNNEL_CHANNEL) then Ignored else
    var (bytes, r) := DeviceVaruint(frame.data[p + q..]);
    if bytes.None? then Ignored
    else if subframe == Some(CLIENT_POLL_SERVER) then Poll(bytes.value, frame.source / 128 % 2 == 1)
    else if |frame.data| - (p + q + r) < bytes.value then Ignored
    else Tunnel(frame.data[p + q + r..p + q + r + bytes.value], frame.source / 128 % 2 == 1)
  }

  lemma SmallVaruint(v: nat)
    requires v < 128
    ensures EncodeVaruint(v) == [v as Byte]
  {
  }

  function OkText(): (s: seq<Byte>) { Ascii("OK\r\n") }

  // Two refusals do not begin like the others.
  function OddText(): (s: seq<Byte>) { Ascii("odd data size\r\n") }

  function TooBigText(): (s: seq<Byte>) { Ascii("size too big\r\n") }

  // What a bootloader announces after every reset.
  function BannerText(date: seq<Byte>, time: seq<Byte>): (s: seq<Byte>)
    ensures |s| == |date| + |time| + 35
  {
    Ascii("multiplex bootloader protocol 1 ") + date + Ascii(" ") + time + Ascii("\r\n")
  }

  // The answer to an `r` line: the address and the bytes read there.
  function ReadReply(address: nat, data: seq<Byte>): (s: seq<Byte>)
    ensures |s| == 11 + 2 * |data|
  {
    UpperText(address, 8) + Ascii(" ") + UpperBlock(data) + Ascii("\r\n")
  }

  // The same answer behind what is already waiting: each piece that does not
  // fit is dropped, and the next one tried.
  function PutPairs(s: seq<Byte>, data: seq<Byte>): (r: seq<Byte>)
  {
    if data == [] then s else Fitted(PutPairs(s, data[..|data| - 1]), UpperText(data[|data| - 1] as int, 2))
  }

  function PutRead(s: seq<Byte>, address: nat, data: seq<Byte>): (r: seq<Byte>)
  {
    Fitted(PutPairs(Fitted(Fitted(s, UpperText(address, 8)), Ascii(" ")), data), Ascii("\r\n"))
  }

  lemma {:induction false} PutPairsAppends(s: seq<Byte>, data: seq<Byte>)
    ensures s <= PutPairs(s, data) && |PutPairs(s, data)| <= |s| + 2 * |data|
    ensures |s| + 2 * |data| <= CAPACITY ==> PutPairs(s, data) == s + UpperBlock(data)
  {
    hide UpperText;
    if data != [] {
      var n := |data| - 1;
      PutPairsAppends(s, data[..n]);
      UpperBlockGrows(data, n);
      assert data[..n + 1] == data;
    }
  }

  // With room for all of it, the answer is appended whole.
  lemma PutReadAppends(s: seq<Byte>, address: nat, data: seq<Byte>)
    ensures s <= PutRead(s, address, data) && |PutRead(s, address, data)| <= |s| + 11 + 2 * |data|
    ensures |s| + 11 + 2 * |data| <= CAPACITY ==> PutRead(s, address, data) == s + ReadReply(address, data)
  {
    hide UpperText, UpperBlock, PutPairs;
    PutPairsAppends(Fitted(Fitted(s, UpperText(address, 8)), Ascii(" ")), data);
  }

  // What a command adds to the responses waiting, at most.
  ghost predicate Answered(response: seq<Byte>, response': seq<Byte>, most: nat)
  {
    response <= response' && |response'| <= |response| + most
  }

  lemma FittedAnswers(response: seq<Byte>, text: seq<Byte>, most: nat)
    requires |text| <= most
    ensures Answered(response, Fitted(response, text), most)
    ensures response == [] && |text| <= CAPACITY ==> Fitted(response, text) == text
  {
  }

  // A response frame on the wire.
  function ResponseFrame(payload: seq<Byte>): (f: seq<Byte>)
    requires |payload| <= MAX_PAYLOAD
  {
    EncodeVaruint(SERVER_TO_CLIENT) + EncodeVaruint(TUNNEL_CHANNEL) + EncodeVaruint(|payload|) + payload
  }

  lemma FrameHead(payload: seq<Byte>)
    requires |payload| <= MAX_PAYLOAD
    ensures var head := EncodeVaruint(SERVER_TO_CLIENT) + EncodeVaruint(TUNNEL_CHANNEL) + EncodeVaruint(|payload|);
      |head| == 3 && ResponseFrame(payload) == head + payload
    ensures |EncodeVaruint(SERVER_TO_CLIENT)| == |EncodeVaruint(TUNNEL_CHANNEL)| == |EncodeVaruint(|payload|)| == 1
  {
    hide EncodeVaruint;
    SmallVaruint(SERVER_TO_CLIENT);
    SmallVaruint(TUNNEL_CHANNEL);
    SmallVaruint(|payload|);
  }

  function Concat(parts: seq<seq<Byte>>): (s: seq<Byte>)
  {
    if parts == [] then [] else Concat(parts[..|parts| - 1]) + parts[|parts| - 1]
  }

  // The frames are exactly the response frames of the payloads, in order.
  ghost predicate Carry(frames: seq<seq<Byte>>, payloads: seq<seq<Byte>>)
  {
    && |frames| == |payloads|
    && forall i :: 0 <= i < |frames| ==> |payloads[i]| <= MAX_PAYLOAD && frames[i] == ResponseFrame(payloads[i])
  }

  lemma CarryMore(frames: seq<seq<Byte>>, payloads: seq<seq<Byte>>, payload: seq<Byte>)
    requires Carry(frames, payloads) && |payload| <= MAX_PAYLOAD
    ensures Carry(frames + [ResponseFrame(payload)], payloads + [payload])
    ensures Concat(payloads + [payload]) == Concat(payloads) + payload
  {
    hide ResponseFrame;
    assert (payloads + [payload])[..|payloads|] == payloads;
  }

  // The writes a `w` line asks for: byte `k` of the block goes to address + k.
  function BlockWrites(offset: nat, data: seq<Byte>): (s: seq<Write>)
    ensures |s| == |data|
  {
    seq(|data|, k requires 0 <= k < |data| => Write(offset + k, data[k]))
  }

  ghost predicate SpellsBlock(text: seq<Byte>, data: seq<Byte>)
  {
    && |text| == 2 * |data|
    && forall i :: 0 <= i < |data| ==> HexValue(text[2 * i..2 * i + 2]) == Some(data[i] as int)
  }

  lemma SpellsNext(text: seq<Byte>, data: seq<Byte>, b: Byte)
    requires 2 * |data| + 2 <= |text| && SpellsBlock(text[..2 * |data|], data)
    requires HexValue(text[2 * |data|..2 * |data| + 2]) == Some(b as int)
    ensures SpellsBlock(text[..2 * |data| + 2], data + [b])
  {
    var longer := text[..2 * |data| + 2];
    forall i | 0 <= i <= |data|
      ensures HexValue(longer[2 * i..2 * i + 2]) == Some((data + [b])[i] as int)
    {
      if i < |data| {
        assert longer[2 * i..2 * i + 2] == text[..2 * |data|][2 * i..2 * i + 2];
      } else {
        assert longer[2 * i..2 * i + 2] == text[2 * |data|..2 * |data| + 2];
      }
    }
  }

  ghost function PromiseOf(v: Session): (p: Promise)
    requires v.Ok()
    ensures |p.image| == FLASH_SIZE
  {
    Promise(v.Image(), v.Touched(), v.Position())
  }

  // Text the host takes for a failure, short enough for one response frame.
  predicate IsError(s: seq<Byte>)
  {
    Ascii("ERR") <= s && |s| <= MAX_PAYLOAD
  }

  function ErrorLine(reason: string): (s: seq<Byte>)
    requires |reason| <= 55
    ensures IsError(s) && |s| == |reason| + 6
  {
    Ascii("ERR " + reason + "\r\n")
  }

  function Min(a: int, b: int): (m: int)
  {
    if a < b then a else b
  }

  // How many of `available` bytes a response carries.
  function Batch(available: nat, limit: int): (n: nat)
    ensures n <= MAX_PAYLOAD && n <= available
  {
    Min(MAX_PAYLOAD, if limit >= 0 then Min(limit, available) else available)
  }

  // `static_cast<int>` of a 32-bit value.
  function ToInt32(v: nat): (r: int)
  {
    if v < 0x8000_0000 then v else v - TWO32
  }

  predicate InRange(address: nat, size: nat, base: nat, end: nat)
  {
    address >= base && address <= end && size <= end - address
  }

  // Only the application was operated on or changed.
  ghost predicate Confined(s: Session, t: Session)
    requires s.Ok() && t.Ok()
  {
    AppOnly(s.ops, t.ops) && forall i :: 0 <= i < APP_START - FLASH_START ==> t.cells[i] == s.cells[i]
  }

  lemma MovedConfined(s: Session, t: Session)
    requires s.Ok() && t.Ok() && Moved(s, t.(locked := s.locked), {s.open / 256})
    requires s.open >= 0 ==> s.open >= (APP_START - FLASH_START) / 8
    ensures Confined(s, t)
  {
  }

  lemma ConfinedTwice(s: Session, t: Session, u: Session)
    requires s.Ok() && t.Ok() && u.Ok()
    ensures Confined(s, s)
    ensures Confined(s, t) && Confined(t, u) ==> Confined(s, u)
  {
  }

  // What a `w` line achieved.
  datatype Effect = Nothing | Wrote(address: nat, data: seq<Byte>)

  // The session moved by the whole block, in address order, inside the application.
  ghost predicate BlockStored(v: Session, v': Session, address: nat, data: seq<Byte>)
    requires v.Ok() && v'.Ok()
  {
    && address >= FLASH_START
    && AllInApp(BlockWrites(address - FLASH_START, data))
    && PromiseOf(v') == NextAll(PromiseOf(v), BlockWrites(address - FLASH_START, data))
    && (v.Clean() ==> v'.Clean())
  }

  lemma Below16(text: seq<Byte>)
    ensures HexValue(text).Some? ==> HexValue(text).value < TWO32
  {
    Pow16Monotonic(|text|, 8);
    assert Pow16(8) == TWO32 by {
      assert Pow16(2) == 256 && Pow16(4) == 256 * Pow16(2) && Pow16(6) == 256 * Pow16(4) && Pow16(8) == 256 * Pow16(6);
    }
  }

  lemma {:induction false} Pow16Monotonic(m: nat, n: nat)
    ensures m <= n ==> Pow16(m) <= Pow16(n)
  {
    if m < n {
      Pow16Monotonic(m, n - 1);
    }
  }

  // The bytes of the block before `data` ends have been stored.
  ghost predicate SoFar(v: Session, v': Session, address: nat, data: seq<Byte>)
    requires v.Ok() && v'.Ok()
  {
    if data == [] then v' == v else BlockStored(v, v', address, data)
  }

  lemma StartBlock(v: Session, address: nat, text: seq<Byte>)
    requires v.Ok()
    ensures SoFar(v, v, address, []) && SpellsBlock(text[..0], [])
  {
  }

  lemma SoFarInFlash(v: Session, v': Session, address: nat, data: seq<Byte>)
    requires v.Ok() && v'.Ok() && SoFar(v, v', address, data)
    ensures data == [] || address >= FLASH_START
  {
  }

  function PageAt(address: nat): int
  {
    (address - FLASH_START) / PAGE_SIZE
  }

  // The bytes from `address` on all lie in one page of flash.
  ghost predicate InOnePage(address: nat, n: nat)
  {
    && FLASH_START <= address && address + n <= FLASH_END
    && (n > 0 ==> PageAt(address + n - 1) == PageAt(address))
  }

  lemma InOnePageLess(address: nat, n: nat, k: nat)
    requires k <= n
    ensures InOnePage(address, n) ==> InOnePage(address, k)
  {
  }

  // A line that writes behind the application's vector leaves it alone once
  // its page has been erased.
  ghost predicate VectorKept(v: Session, v': Session)
    requires v.Ok() && v'.Ok()
  {
    v.erased[VECTOR / 256] && v.open != VECTOR ==> VectorSame(v, v')
  }

  // What even a failed or interrupted line leaves alone.
  ghost predicate Spares(line: Command, v: Session, v': Session)
    requires v.Ok() && v'.Ok()
  {
    match line
    case WriteCmd(address, data) =>
      HexValue(address).Some? && InOnePage(HexValue(address).value, |data| / 2) ==>
        && StaysOn(v, v', PageAt(HexValue(address).value))
        && (HexValue(address).value >= APP_START + 8 ==> VectorKept(v, v'))
    case Lock => v.open == -1 ==> v'.open == -1 && v'.cells == v.cells
    case Reset => v.open == -1 ==> v'.open == -1 && v'.cells == v.cells
    case _ => (v'.open == -1 || v'.open == v.open) && v'.cells == v.cells
  }

  lemma SparesSame(line: Command, v: Session)
    requires v.Ok()
    ensures Spares(line, v, v)
  {
  }

  lemma SparesRestart(line: Command, v: Session, cut: Session, v': Session)
    requires v.Ok() && cut.Ok() && v'.Ok() && Spares(line, v, cut)
    requires v'.open == -1 && v'.cells == cut.cells
    ensures Spares(line, v, v')
  {
  }

  lemma BlockStoredOnce(v: Session, v': Session, v'': Session, address: nat, data: seq<Byte>, b: Byte)
    requires v.Ok() && v'.Ok() && v''.Ok()
    requires APP_START <= address + |data| < FLASH_END && (data == [] || address >= FLASH_START)
    requires SoFar(v, v', address, data)
    requires Stored(v', v'', Write(address + |data| - FLASH_START, b))
    ensures SoFar(v, v'', address, data + [b])
  {
    hide Session.Clean, Session.Ready, Session.Image, Session.Touched, Store, Advance;
    var s := BlockWrites(address - FLASH_START, data + [b]);
    assert s[..|data|] == BlockWrites(address - FLASH_START, data);
    if data == [] {
      assert s[..0] == [];
    }
    assert PromiseOf(v'') == Next(PromiseOf(v'), s[|data|]);
    assert AllInApp(s);
    assert NextAll(PromiseOf(v), s) == Next(NextAll(PromiseOf(v), s[..|data|]), s[|data|]);
    assert NextAll(PromiseOf(v), s[..|data|]) == PromiseOf(v');
    assert v.Clean() ==> v''.Clean();
  }

  // An `r` line that asks for at most 32 bytes of flash.
  predicate Readable(address: seq<Byte>, size: seq<Byte>)
  {
    && HexValue(address).Some? && HexValue(size).Some?
    && FLASH_START <= HexValue(address).value <= FLASH_END
    && HexValue(size).value <= Min(32, FLASH_END - HexValue(address).value)
  }

  // An `r` line that names no address or size, or memory outside flash and RAM.
  predicate Unreadable(address: seq<Byte>, size: seq<Byte>)
  {
    || HexValue(address).None? || HexValue(size).None? || HexValue(size).value > 32
    || !InMemory(HexValue(address).value, HexValue(size).value)
  }

  predicate InMemory(address: nat, size: nat)
  {
    || InRange(address, size, FLASH_START, FLASH_END) || InRange(address, size, 0x2000_0000, 0x2002_0000)
    || InRange(address, size, 0x1000_0000, 0x1000_8000)
  }

  ghost function ReadBytes(v: Session, address: seq<Byte>, size: seq<Byte>): (data: seq<Byte>)
    requires v.Ok() && Readable(address, size)
  {
    var start := HexValue(address).value - FLASH_START;
    v.cells[start..start + HexValue(size).value]
  }

  lemma ReadBytesAre(v: Session, address: seq<Byte>, size: seq<Byte>)
    requires v.Ok() && Readable(address, size)
    ensures var start := HexValue(address).value - FLASH_START;
      ReadBytes(v, address, size) == v.cells[start..start + HexValue(size).value]
  {
  }

  // The session takes every byte from this address on.
  ghost predicate AppendsAt(v: Session, address: nat)
    requires v.Ok()
  {
    FLASH_START <= address && Appends(v, address - FLASH_START)
  }

  ghost predicate Spelled(text: seq<Byte>)
  {
    exists data :: SpellsBlock(text, data)
  }

  lemma SpelledPair(text: seq<Byte>, i: nat)
    requires Spelled(text) && i < |text| / 2
    ensures HexValue(text[2 * i..2 * i + 2]).Some?
  {
    var data :| SpellsBlock(text, data);
    assert HexValue(text[2 * i..2 * i + 2]) == Some(data[i] as int);
  }

  ghost predicate Taken(v: Session, address: nat, data: seq<Byte>)
    requires v.Ok()
  {
    APP_START <= address && address + |data| / 2 <= FLASH_END && Spelled(data) && AppendsAt(v, address)
  }

  lemma TakenPair(v: Session, address: nat, data: seq<Byte>, i: nat)
    requires v.Ok()
    ensures Taken(v, address, data) ==> AppendsAt(v, address)
    ensures Taken(v, address, data) && i < |data| / 2 ==>
      HexValue(data[2 * i..2 * i + 2]).Some? && APP_START <= address && address + i < FLASH_END
  {
    hide Spelled;
    if Taken(v, address, data) && i < |data| / 2 {
      SpelledPair(data, i);
    }
  }

  lemma SamePage(address: nat, n: nat, i: nat)
    requires i < n
    ensures InOnePage(address, n) ==> PageAt((address + i) % TWO32) == PageAt(address) && (address + i) % TWO32 >= address
  {
  }

  lemma TakenEven(v: Session, data: seq<Byte>)
    requires v.Ok()
    ensures forall address: nat :: Taken(v, address, data) ==> |data| % 2 == 0
  {
  }

  // A `w` line that a healthy session writing on in order has to accept.
  ghost predicate Accepts(v: Session, address: seq<Byte>, data: seq<Byte>)
    requires v.Ok()
  {
    address != [] && data != [] && HexValue(address).Some? && Taken(v, HexValue(address).value, data)
  }

  // What executing a command leaves: the response it adds and the session.
  ghost predicate Executed(c: Command, response: seq<Byte>, response': seq<Byte>, v: Session, v': Session,
                           effect: Effect)
    requires v.Ok() && v'.Ok()
  {
    match c
    case Blank => response' == response && v' == v
    case Echo(text) => response' == Fitted(response, text) && v' == v
    case Unlock =>
      response' == Fitted(response, OkText()) && !v'.locked && v'.cells == v.cells && v'.Clean() && v'.Ready()
      && PromiseOf(v') == After(v.cells, [])
    case Lock =>
      if v'.locked then
        response' == Fitted(response, OkText()) && (if v.locked then v' == v else v'.cells == v.Image() && v'.open == -1)
      else !v.locked && v.open != -1 && Answered(response, response', 46) && (response == [] ==> IsError(response'))
    case WriteCmd(address, data) =>
      if effect.Wrote? then
        && response' == Fitted(response, OkText()) && v'.locked == v.locked
        && HexValue(address) == Some(effect.address) && SpellsBlock(data, effect.data)
        && !v.locked && SoFar(v, v', effect.address, effect.data)
        && (Accepts(v, address, data) ==> AppendsAt(v', HexValue(address).value + |data| / 2))
      else
        && !Accepts(v, address, data) && (v.locked ==> v' == v) && Answered(response, response', 46)
        && (response == [] && |data| % 2 == 0 ==> IsError(response'))
        && (address != [] && |data| % 2 == 1 ==> response' == Fitted(response, OddText()) && v' == v)
    case ReadCmd(address, size) =>
      && v' == v
      && Answered(response, response', 75)
      && (Readable(address, size) ==>
           response' == PutRead(response, HexValue(address).value, ReadBytes(v, address, size)))
      && (response == [] && Unreadable(address, size) ==> IsError(response') || response' == TooBigText())
    case Reset =>
      // a lock, and the session starts over if that succeeds
      if v'.locked then |response'| == 54 && v'.open == -1 && v'.cells == (if v.locked then v.cells else v.Image())
      else !v.locked && v.open != -1 && Answered(response, response', 46) && (response == [] ==> IsError(response'))
    case Unknown => v' == v && Answered(response, response', 46) && (response == [] ==> IsError(response'))
  }

  // What the command buffer holds after a frame: bytes that do not fit empty it.
  function Received(s: seq<Byte>, r: Request): (s': seq<Byte>)
  {
    if !r.Tunnel? then s else if |s| + |r.bytes| > CAPACITY then [] else s + r.bytes
  }

  // The first complete line is `reset`.
  predicate Resets(s: seq<Byte>)
  {
    LineEnd(s) < |s| && Parse(s).Reset?
  }

  // One turn of the line loop, from the old buffers and session to the new.
  ghost predicate RanLine(s: seq<Byte>, s': seq<Byte>, response: seq<Byte>, response': seq<Byte>,
                          v: Session, v': Session, effect: Effect)
    requires v.Ok() && v'.Ok()
  {
    if LineEnd(s) == |s| then s' == s && response' == response && v' == v
    else
      && Spares(Parse(s), v, v') && Executed(Parse(s), response, response', v, v', effect)
      && s' == if Resets(s) && v'.locked then [] else s[LineEnd(s) + 1..]
  }

  class Server {
    const id: int
    const flash: FlashWriter
    const command: Buffer
    const response: Buffer
    const outFrame: Buffer
    // `__DATE__` and `__TIME__` of the build.
    const date: seq<Byte>
    const time: seq<Byte>
    // `flash_state_`: the session state the commands see.
    var unlocked: bool
    // Frames given to the CAN driver, oldest first.
    var sent: seq<seq<Byte>>
    // Response bytes accepted and payloads sent since start-up.
    ghost var accepted: seq<Byte>
    ghost var payloads: seq<seq<Byte>>

    ghost function Repr(): set<object>
    {
      {this, flash, flash.erased, flash.flash, flash.flash.cells,
       command, command.data, response, response.data, outFrame, outFrame.data}
    }

    ghost predicate Valid()
      reads Repr()
    {
      && flash.Valid()
      && command.Valid() && response.Valid() && outFrame.Valid()
      && command != response && command != outFrame && response != outFrame
      && command.data != response.data && command.data != outFrame.data && response.data != outFrame.data
      && flash.flash.cells !in {command.data, response.data, outFrame.data}
      && unlocked == !flash.locked
      && |date| == 11 && |time| == 8
      && Carry(sent, payloads)
      && accepted == Concat(payloads) + response.View()
    }

    constructor (id: int, f: FlashWriter, date: seq<Byte>, time: seq<Byte>)
      requires f.Valid() && f.locked && |date| == 11 && |time| == 8
      ensures Valid() && flash == f && this.id == id && !unlocked
      ensures payloads == [] && command.View() == []
      ensures response.View() == BannerText(date, time) == accepted
    {
      this.id, flash, unlocked := id, f, false;
      this.date, this.time := date, time;
      command := new Buffer();
      response := new Buffer();
      outFrame := new Buffer();
      sent, payloads, accepted := [], [], [];
      new;
      assert accepted == Concat(payloads) + response.View();
      Banner();
    }

    method Banner()
      requires Valid() && response.View() == [] && accepted == []
      modifies response, response.data, this`accepted
      ensures Valid() && response.View() == BannerText(date, time) == accepted
    {
      hide Carry, Concat, Ascii;
      ghost var head := Ascii("multiplex bootloader protocol 1 ");
      Reply(Ascii("multiplex bootloader protocol 1 "));
      Reply(date);
      Reply(Ascii(" "));
      assert accepted == response.View() == head + date + Ascii(" ");
      Reply(time);
      Reply(Ascii("\r\n"));
    }

    // Puts text in the response if it fits.
    method Reply(text: seq<Byte>)
      requires Valid()
      modifies response, response.data, this`accepted
      ensures Valid()
      ensures response.View() == Fitted(old(response.View()), text)
      ensures accepted == old(accepted) + (if old(response.pos) + |text| <= CAPACITY then text else [])
    {
      hide Carry, Concat;
      accepted := accepted + (if response.pos + |text| <= CAPACITY then text else []);
      response.Write(text);
    }

    method ReplyError(reason: string)
      requires Valid() && |reason| <= 55
      modifies response, response.data, this`accepted
      ensures Valid()
      ensures Answered(old(response.View()), response.View(), |reason| + 6)
      ensures response.View() == Fitted(old(response.View()), ErrorLine(reason))
      ensures old(response.View()) == [] ==> IsError(response.View())
    {
      hide Carry, Concat;
      Reply(ErrorLine(reason));
      assert [] + ErrorLine(reason) == ErrorLine(reason);
    }

    method ReplyProgramError(err: nat)
      requires Valid()
      modifies response, response.data, this`accepted
      ensures Valid()
      ensures old(response.View()) == [] ==> IsError(response.View())
      ensures Answered(old(response.View()), response.View(), 28)
      ensures var before := Fitted(old(response.View()), Ascii("ERR program error "));
        response.View() == Fitted(Fitted(before, UpperText(err, 8)), Ascii("\r\n"))
    {
      hide Carry, Concat, UpperText;
      Reply(Ascii("ERR program error "));
      Reply(UpperText(err, 8));
      Reply(Ascii("\r\n"));
    }

    method WriteByte(address: nat, value: Byte) returns (ok: bool)
      requires Valid()
      modifies response, response.data, this`accepted, flash, flash.erased, flash.flash, flash.flash.cells
      ensures Valid() && unlocked == old(unlocked) && Confined(old(flash.View()), flash.View())
      ensures flash.flash.ops != old(flash.flash.ops) ==> unlocked
      ensures StaysOn(old(flash.View()), flash.View(), PageAt(address))
      ensures address >= APP_START + 8 ==> KeepsVector(old(flash.View()), flash.View())
      ensures ok ==>
        && response.View() == old(response.View()) && APP_START <= address < FLASH_END
        && Stored(old(flash.View()), flash.View(), Write(address - FLASH_START, value))
      ensures !ok ==> Answered(old(response.View()), response.View(), 46)
      ensures !ok && old(response.View()) == [] ==> IsError(response.View())
      ensures !unlocked ==> !ok && flash.View() == old(flash.View())
      ensures APP_START <= address < FLASH_END && AppendsAt(old(flash.View()), address) ==>
        ok && AppendsAt(flash.View(), address + 1)
    {
      hide Carry, Concat, ErrorLine, Stored, IsError, StaysOn, Session.Clean, Session.Ready, Session.Image;
      hide Session.Touched, KeepsVector;
      hide AheadOf;
      ghost var before, offset := flash.View(), address - FLASH_START;
      KeepsVectorTwice(before, before, before);
      if APP_START <= address && Appends(before, offset) {
        AdvanceAhead(before.Position(), offset);
      }
      StaysOnTwice(before, before, before, PageAt(address));
      ConfinedTwice(before, before, before);
      if !unlocked || flash.locked {
        ReplyError("flash is locked");
        return false;
      }
      if address < 0x0800_0000 || address >= FLASH_END {
        ReplyError("address not in flash");
        return false;
      }
      if address < APP_START {
        ReplyError("address not writable (bootloader region)");
        return false;
      }
      var err := flash.ProgramByte(address, value);
      ghost var after := flash.View();
      assert Confined(before, after);
      hide Confined;
      if err != 0 {
        ReplyProgramError(err);
        assert flash.View() == after;
        return false;
      }
      if Appends(before, offset) {
        ByteAppended(before, flash.View(), Write(offset, value));
      }
      return true;
    }

    // One turn of the byte loop of a `w` line.
    method WritePair(address: nat, dataText: seq<Byte>, i: nat, ghost start: Session, ghost data: seq<Byte>)
      returns (ok: bool, ghost longer: seq<Byte>)
      requires Valid() && address < TWO32 && 2 * i + 2 <= |dataText| <= CAPACITY && |data| == i
      requires start.Ok() && SoFar(start, flash.View(), address, data) && SpellsBlock(dataText[..2 * i], data)
      modifies response, response.data, this`accepted, flash, flash.erased, flash.flash, flash.flash.cells
      ensures Valid() && unlocked == old(unlocked) && Confined(old(flash.View()), flash.View())
      ensures flash.flash.ops != old(flash.flash.ops) ==> unlocked
      ensures StaysOn(old(flash.View()), flash.View(), PageAt((address + i) % TWO32))
      ensures (address + i) % TWO32 >= APP_START + 8 ==> KeepsVector(old(flash.View()), flash.View())
      ensures !unlocked ==> !ok && flash.View() == old(flash.View())
      ensures ok ==> response.View() == old(response.View()) && |longer| == i + 1
      ensures !ok ==> Answered(old(response.View()), response.View(), 46)
      ensures ok ==> SoFar(start, flash.View(), address, longer) && SpellsBlock(dataText[..2 * i + 2], longer)
      ensures !ok && old(response.View()) == [] ==> IsError(response.View())
      ensures (HexValue(dataText[2 * i..2 * i + 2]).Some? && APP_START <= address && address + i < FLASH_END
               && AppendsAt(old(flash.View()), address + i)) ==>
        ok && AppendsAt(flash.View(), address + i + 1)
    {
      hide Carry, Concat, IsError, Confined, Stored, SoFar, SpellsBlock, StaysOn, AppendsAt, HexValue, ErrorLine;
      hide KeepsVector, HexFold;
      hide Session.Clean, Session.Ready, Session.Image, Session.Touched;
      ghost var before := flash.View();
      KeepsVectorTwice(before, before, before);
      ConfinedTwice(before, before, before);
      StaysOnTwice(before, before, before, PageAt((address + i) % TWO32));
      longer := data;
      var maybeByte := ParsePair(dataText[2 * i..2 * i + 2]);
      if maybeByte == None {
        ReplyError("malformed hex");
        return false, longer;
      }
      var value := maybeByte.value;
      SoFarInFlash(start, before, address, data);
      SpellsNext(dataText, data, value);
      ok := WriteByte((address + i) % TWO32, value);
      if ok {
        longer := data + [value];
        BlockStoredOnce(start, before, flash.View(), address, data, value);
      }
    }

    // Two digits of a block.
    method ParsePair(text: seq<Byte>) returns (b: Option<Byte>)
      requires |text| == 2
      ensures if b.Some? then HexValue(text) == Some(b.value as int) else HexValue(text) == None
    {
      var value := HexToI(text);
      if value == None {
        return None;
      }
      assert Pow16(2) == 16 * Pow16(1) == 256;
      hide HexFold;
      return Some((value.value % 256) as Byte);
    }

    // The byte loop of a `w` line.
    method WritePairs(address: nat, dataText: seq<Byte>) returns (ok: bool, ghost data: seq<Byte>)
      requires Valid() && address < TWO32 && |dataText| <= CAPACITY && |dataText| % 2 == 0
      modifies response, response.data, this`accepted, flash, flash.erased, flash.flash, flash.flash.cells
      ensures Valid() && unlocked == old(unlocked) && Confined(old(flash.View()), flash.View())
      ensures flash.flash.ops != old(flash.flash.ops) ==> unlocked
      ensures ok ==> response.View() == old(response.View()) && SpellsBlock(dataText, data)
      ensures ok ==> SoFar(old(flash.View()), flash.View(), address, data)
      ensures !unlocked ==> flash.View() == old(flash.View()) && (ok ==> dataText == [])
      ensures !ok ==> Answered(old(response.View()), response.View(), 46)
      ensures !ok && old(response.View()) == [] ==> IsError(response.View())
      ensures InOnePage(address, |dataText| / 2) ==> StaysOn(old(flash.View()), flash.View(), PageAt(address))
      ensures InOnePage(address, |dataText| / 2) && address >= APP_START + 8 ==>
        KeepsVector(old(flash.View()), flash.View())
      ensures Taken(old(flash.View()), address, dataText) ==> ok && AppendsAt(flash.View(), address + |dataText| / 2)
    {
      hide Carry, Concat, IsError, SoFar, SpellsBlock, StaysOn, Confined, AppendsAt, Spelled, Taken, InOnePage;
      hide PageAt, HexValue, KeepsVector, Session.Clean, Session.Ready, Session.Image, Session.Touched;
      StaysOnTwice(flash.View(), flash.View(), flash.View(), PageAt(address));
      data := [];
      ghost var start := flash.View();
      ConfinedTwice(start, start, start);
      KeepsVectorTwice(start, start, start);
      StartBlock(start, address, dataText);
      TakenPair(start, address, dataText, 0);
      for i := 0 to |dataText| / 2
        invariant Valid() && unlocked == old(unlocked) && Confined(start, flash.View())
        invariant flash.flash.ops != old(flash.flash.ops) ==> unlocked
        invariant |data| == i && SpellsBlock(dataText[..2 * i], data)
        invariant SoFar(start, flash.View(), address, data)
        invariant response.View() == old(response.View()) && (!unlocked ==> i == 0 && flash.View() == start)
        invariant InOnePage(address, |dataText| / 2) ==> StaysOn(start, flash.View(), PageAt(address))
        invariant InOnePage(address, |dataText| / 2) && address >= APP_START + 8 ==> KeepsVector(start, flash.View())
        invariant Taken(start, address, dataText) ==> AppendsAt(flash.View(), address + i)
      {
        ghost var before := flash.View();
        TakenPair(start, address, dataText, i);
        SamePage(address, |dataText| / 2, i);
        ok, data := WritePair(address, dataText, i, start, data);
        ConfinedTwice(start, before, flash.View());
        StaysOnTwice(start, before, flash.View(), PageAt(address));
        KeepsVectorTwice(start, before, flash.View());
        if !ok {
          return;
        }
      }
      assert dataText[..|dataText|] == dataText;
      ok := true;
    }

    method WriteFlash(addressText: seq<Byte>, dataText: seq<Byte>) returns (ghost effect: Effect)
      requires Valid() && 0 < |dataText| <= CAPACITY
      modifies response, response.data, this`accepted, flash, flash.erased, flash.flash, flash.flash.cells
      ensures Valid() && unlocked == old(unlocked) && Confined(old(flash.View()), flash.View())
      ensures flash.flash.ops != old(flash.flash.ops) ==> unlocked
      ensures effect.Wrote? ==>
        && HexValue(addressText) == Some(effect.address) && SpellsBlock(dataText, effect.data)
        && SoFar(old(flash.View()), flash.View(), effect.address, effect.data)
        && response.View() == Fitted(old(response.View()), OkText()) && unlocked
      ensures effect.Nothing? ==> Answered(old(response.View()), response.View(), 46)
      ensures effect.Nothing? && !unlocked ==> flash.View() == old(flash.View())
      ensures effect.Nothing? && |dataText| % 2 == 0 && old(response.View()) == [] ==> IsError(response.View())
      ensures |dataText| % 2 == 1 ==>
        effect.Nothing? && response.View() == Fitted(old(response.View()), OddText()) && flash.View() == old(flash.View())
      ensures HexValue(addressText).Some? && Taken(old(flash.View()), HexValue(addressText).value, dataText) ==>
        effect.Wrote? && AppendsAt(flash.View(), HexValue(addressText).value + |dataText| / 2)
      ensures Spares(WriteCmd(addressText, dataText), old(flash.View()), flash.View())
    {
      hide Carry, Concat, ErrorLine, IsError, OkText, SoFar, SpellsBlock, StaysOn, Confined, Taken, AppendsAt;
      hide Session.Clean, Session.Ready, Session.Image, Session.Touched;
      effect := Nothing;
      TakenEven(flash.View(), dataText);
      ConfinedTwice(flash.View(), flash.View(), flash.View());
      SparesSame(WriteCmd(addressText, dataText), flash.View());
      if |dataText| % 2 != 0 {
        Reply(OddText());
        return;
      }
      var maybeAddress := HexToI(addressText);
      if maybeAddress == None {
        ReplyError("malformed hex");
        return;
      }
      Below16(addressText);
      var ok, data := WritePairs(maybeAddress.value, dataText);
      if ok {
        Reply(OkText());
        effect := Wrote(maybeAddress.value, data);
      }
    }

    // Reads up to 32 bytes of flash or RAM; RAM contents are arbitrary here.
    method ReadMemory(addressText: seq<Byte>, sizeText: seq<Byte>)
      requires Valid()
      modifies response, response.data, this`accepted
      ensures Valid()
      ensures Answered(old(response.View()), response.View(), 75)
      ensures Readable(addressText, sizeText) ==>
        response.View() == PutRead(old(response.View()), HexValue(addressText).value,
                                   ReadBytes(flash.View(), addressText, sizeText))
      ensures old(response.View()) == [] && Unreadable(addressText, sizeText) ==>
        IsError(response.View()) || response.View() == TooBigText()
    {
      hide ErrorLine, IsError, Concat, Carry, UpperText, UpperBlock, HexValue, PutRead, Answered, Fitted, ReadBytes;
      FittedAnswers(response.View(), TooBigText(), 75);
      FittedAnswers(response.View(), ErrorLine("malformed hex"), 75);
      FittedAnswers(response.View(), ErrorLine("address not readable"), 75);
      var maybeAddress := HexToI(addressText);
      var maybeSize := HexToI(sizeText);
      if maybeAddress == None || maybeSize == None {
        ReplyError("malformed hex");
        return;
      }
      var address, size := maybeAddress.value, maybeSize.value;
      if size > 32 {
        Reply(TooBigText());
        return;
      }
      if !InMemory(address, size) {
        ReplyError("address not readable");
        return;
      }
      ReplyMemory(address, size);
      if Readable(addressText, sizeText) {
        ReadBytesAre(flash.View(), addressText, sizeText);
      }
    }

    ghost function Memory(address: nat, size: nat): (data: seq<Byte>)
      requires flash.flash.Valid() && FLASH_START <= address && address + size <= FLASH_END
      reads flash.flash, flash.flash.cells
      ensures |data| == size
    {
      flash.flash.cells[address - FLASH_START..address - FLASH_START + size]
    }

    method ByteAt(address: nat, size: nat, i: nat) returns (value: Byte)
      requires Valid() && i < size
      ensures FLASH_START <= address && address + size <= FLASH_END ==> value == Memory(address, size)[i]
    {
      hide Concat, Carry;
      var ram: int := *;
      value := (ram % 256) as Byte;
      if InRange(address, size, FLASH_START, FLASH_END) {
        value := flash.flash.cells[address + i - FLASH_START];
      }
    }

    method ReplyBytes(address: nat, size: nat)
      requires Valid() && size <= 32
      modifies response, response.data, this`accepted
      ensures Valid() && Answered(old(response.View()), response.View(), 2 * size)
      ensures FLASH_START <= address && address + size <= FLASH_END ==>
        response.View() == PutPairs(old(response.View()), Memory(address, size))
    {
      hide UpperText, Concat, Carry, Server.Memory;
      ghost var inFlash := FLASH_START <= address && address + size <= FLASH_END;
      ghost var memory := if inFlash then Memory(address, size) else [];
      for i := 0 to size
        invariant Valid() && Answered(old(response.View()), response.View(), 2 * i)
        invariant inFlash ==> response.View() == PutPairs(old(response.View()), memory[..i])
      {
        var value := ByteAt(address, size, i);
        assert inFlash ==> memory[..i + 1][..i] == memory[..i];
        Reply(UpperText(value as int, 2));
      }
      assert inFlash ==> memory[..size] == memory;
    }

    method ReplyMemory(address: nat, size: nat)
      requires Valid() && size <= 32
      modifies response, response.data, this`accepted
      ensures Valid() && Answered(old(response.View()), response.View(), 75)
      ensures FLASH_START <= address && address + size <= FLASH_END ==>
        response.View() == PutRead(old(response.View()), address, Memory(address, size))
    {
      hide UpperText, PutPairs, Concat, Carry, Server.Memory;
      Reply(UpperText(address, 8));
      Reply(Ascii(" "));
      ReplyBytes(address, size);
      Reply(Ascii("\r\n"));
    }

    // A processor reset: RAM starts over and the banner is queued.
    method Restart()
      requires Valid()
      modifies this, command, response, response.data, flash, flash.erased
      ensures Valid() && !unlocked && command.View() == [] && sent == []
      ensures Confined(old(flash.View()), flash.View())
      ensures flash.View().open == -1 && flash.View().cells == old(flash.View()).cells && flash.View().Touched() == {}
      ensures response.View() == BannerText(date, time) == accepted
    {
      hide BannerText, Session.Clean, Session.Ready, Session.Image;
      flash.Restart();
      ghost var restarted := flash.View();
      assert Confined(old(flash.View()), restarted);
      hide Confined;
      unlocked := false;
      command.Clear();
      response.Clear();
      sent, payloads, accepted := [], [], [];
      assert accepted == Concat(payloads) + response.View();
      Banner();
      assert flash.View() == restarted;
    }

    method RunUnlock()
      requires Valid()
      modifies this, response, response.data, flash, flash.erased
      ensures Valid() && unlocked && sent == old(sent) && Confined(old(flash.View()), flash.View())
      ensures response.View() == Fitted(old(response.View()), OkText())
      ensures flash.View().Clean() && flash.View().Ready() && PromiseOf(flash.View()) == After(flash.flash.cells[..], [])
    {
      flash.Unlock();
      unlocked := true;
      Reply(OkText());
    }

    method RunLock() returns (ok: bool)
      requires Valid()
      modifies this, response, response.data, flash, flash.erased, flash.flash, flash.flash.cells
      ensures Valid() && sent == old(sent) && response.View() == old(response.View())
      ensures Confined(old(flash.View()), flash.View())
      ensures flash.flash.ops != old(flash.flash.ops) ==> old(unlocked)
      ensures if !old(unlocked) then ok && flash.View() == old(flash.View())
        else ok ==> !unlocked && flash.flash.cells[..] == old(flash.View()).Image() && flash.View().open == -1
      ensures !ok ==> unlocked && old(flash.View()).open != -1
      ensures Spares(Lock, old(flash.View()), flash.View())
    {
      hide Kept, Confined, Session.Clean, Session.Ready, Session.Image, Session.Touched, Concat, Carry;
      ghost var before := flash.View();
      var err := flash.Lock();
      MovedConfined(before, flash.View());
      ok := err == 0;
      if ok {
        unlocked := false;
      }
    }

    method ExecuteLock()
      requires Valid()
      modifies this, response, response.data, flash, flash.erased, flash.flash, flash.flash.cells
      ensures Valid() && sent == old(sent) && Confined(old(flash.View()), flash.View())
      ensures flash.flash.ops != old(flash.flash.ops) ==> old(unlocked)
      ensures Executed(Lock, old(response.View()), response.View(), old(flash.View()), flash.View(), Nothing)
      ensures Spares(Lock, old(flash.View()), flash.View())
    {
      hide Confined, ErrorLine, OkText, IsError, Concat, Carry, Session.Clean, Session.Ready, Session.Image;
      hide Session.Touched;
      var ok := RunLock();
      if ok {
        Reply(OkText());
      } else {
        ReplyError("error locking");
      }
    }

    method ExecuteWrite(addressText: seq<Byte>, dataText: seq<Byte>) returns (ghost effect: Effect)
      requires Valid() && |dataText| <= CAPACITY
      modifies response, response.data, this`accepted, flash, flash.erased, flash.flash, flash.flash.cells
      ensures Valid() && Confined(old(flash.View()), flash.View())
      ensures flash.flash.ops != old(flash.flash.ops) ==> old(unlocked)
      ensures Executed(WriteCmd(addressText, dataText), old(response.View()), response.View(),
                       old(flash.View()), flash.View(), effect)
      ensures Spares(WriteCmd(addressText, dataText), old(flash.View()), flash.View())
    {
      hide Confined, ErrorLine, OkText, IsError, SoFar, SpellsBlock, Spares, Concat, Carry, Taken, AppendsAt;
      hide Session.Clean, Session.Ready, Session.Image, Session.Touched;
      ConfinedTwice(flash.View(), flash.View(), flash.View());
      SparesSame(WriteCmd(addressText, dataText), flash.View());
      effect := Nothing;
      if addressText == [] || dataText == [] {
        ReplyError("malformed write");
      } else {
        effect := WriteFlash(addressText, dataText);
      }
    }

    method ExecuteRead(addressText: seq<Byte>, sizeText: seq<Byte>)
      requires Valid()
      modifies response, response.data, this`accepted
      ensures Valid() && flash.View() == old(flash.View())
      ensures Executed(ReadCmd(addressText, sizeText), old(response.View()), response.View(),
                       old(flash.View()), flash.View(), Nothing)
    {
      if addressText == [] || sizeText == [] {
        ReplyError("malformed read");
      } else {
        ReadMemory(addressText, sizeText);
      }
    }

    method ExecuteText(command: Command)
      requires Valid() && (command.Blank? || command.Echo? || command.Unknown?)
      modifies response, response.data, this`accepted
      ensures Valid() && flash.View() == old(flash.View())
      ensures Executed(command, old(response.View()), response.View(), old(flash.View()), flash.View(), Nothing)
    {
      match command {
        case Blank =>  // blank lines are ignored
        case Echo(text) => Reply(text);
        case Unknown => ReplyError("unknown command");
      }
    }

    method ExecuteUnlock()
      requires Valid()
      modifies this, response, response.data, flash, flash.erased
      ensures Valid() && sent == old(sent) && Confined(old(flash.View()), flash.View())
      ensures Executed(Unlock, old(response.View()), response.View(), old(flash.View()), flash.View(), Nothing)
      ensures Spares(Unlock, old(flash.View()), flash.View())
    {
      hide Confined, OkText, Concat, Carry;
      RunUnlock();
    }

    method ExecuteReset() returns (restarted: bool)
      requires Valid()
      modifies Repr() - {command.data, outFrame, outFrame.data}
      ensures Valid() && Confined(old(flash.View()), flash.View())
      ensures flash.flash.ops != old(flash.flash.ops) ==> old(unlocked)
      ensures restarted == !unlocked
      ensures restarted ==> command.View() == [] && response.View() == BannerText(date, time)
      ensures !restarted ==> sent == old(sent) && command.View() == old(command.View())
      ensures Executed(Reset, old(response.View()), response.View(), old(flash.View()), flash.View(), Nothing)
      ensures Spares(Reset, old(flash.View()), flash.View())
    {
      hide Confined, ErrorLine, Concat, Carry, BannerText, Session.Clean, Session.Ready, Session.Image, Session.Touched;
      ghost var before := flash.View();
      var ok := RunLock();
      ghost var locked := flash.View();
      if ok {
        Restart();
        restarted := true;
      } else {
        ReplyError("error locking");
        restarted := false;
      }
      ConfinedTwice(before, locked, flash.View());
      ConfinedTwice(locked, locked, locked);
    }

    method Execute(line: Command) returns (ghost effect: Effect, restarted: bool)
      requires Valid() && (line.WriteCmd? ==> |line.data| <= CAPACITY)
      modifies Repr() - {command.data, outFrame, outFrame.data}
      ensures Valid() && Confined(old(flash.View()), flash.View())
      ensures flash.flash.ops != old(flash.flash.ops) ==> old(unlocked)
      ensures restarted == (line.Reset? && !unlocked)
      ensures restarted ==> command.View() == [] && response.View() == BannerText(date, time)
      ensures !restarted ==> sent == old(sent) && command.View() == old(command.View())
      ensures Executed(line, old(response.View()), response.View(), old(flash.View()), flash.View(), effect)
      ensures Spares(line, old(flash.View()), flash.View())
    {
      hide Confined, Executed, Spares, Concat, Carry;
      SparesSame(line, flash.View());
      hide Session.Clean, Session.Ready, Session.Image, Session.Touched;
      ConfinedTwice(flash.View(), flash.View(), flash.View());
      effect, restarted := Nothing, false;
      match line {
        case Unlock => ExecuteUnlock();
        case Lock => ExecuteLock();
        case WriteCmd(addressText, dataText) => effect := ExecuteWrite(addressText, dataText);
        case ReadCmd(addressText, sizeText) => ExecuteRead(addressText, sizeText);
        case Reset => restarted := ExecuteReset();
        case _ => ExecuteText(line);
      }
    }

    // Executes the first complete line of the command buffer, if there is one.
    // `effect` reports what a `w` line stored.
    method RunLine() returns (ghost effect: Effect, restarted: bool)
      requires Valid()
      modifies Repr()
      ensures Valid() && Confined(old(flash.View()), flash.View())
      ensures flash.flash.ops != old(flash.flash.ops) ==> old(unlocked)
      ensures RanLine(old(command.View()), command.View(), old(response.View()), response.View(),
                      old(flash.View()), flash.View(), effect)
      ensures restarted == (Resets(old(command.View())) && !unlocked)
      ensures if restarted then response.View() == BannerText(date, time) else sent == old(sent)
    {
      hide Confined, SoFar, SpellsBlock, Concat, Carry, Executed, Spares, Parse, BannerText;
      hide Session.Clean, Session.Ready, Session.Image, Session.Touched;
      ConfinedTwice(flash.View(), flash.View(), flash.View());
      effect, restarted := Nothing, false;
      var view := command.data[..command.pos];
      var end := LineEnd(view);
      if end < |view| {
        var line := ParseLine(view);
        ParsedData(view);
        effect, restarted := Execute(line);
        if !restarted {
          ghost var after := flash.View();
          command.Consume(end + 1);
          assert flash.View() == after;
        }
      }
    }

    method FillFrame(n: nat)
      requires Valid() && n <= MAX_PAYLOAD && n <= response.pos
      modifies outFrame, outFrame.data
      ensures Valid() && outFrame.View() == ResponseFrame(response.View()[..n])
    {
      hide EncodeVaruint, Concat, Carry, ResponseFrame;
      ghost var payload := response.View()[..n];
      FrameHead(payload);
      outFrame.Clear();
      outFrame.WriteVaruint(SERVER_TO_CLIENT);
      assert outFrame.View() == EncodeVaruint(SERVER_TO_CLIENT);
      outFrame.WriteVaruint(TUNNEL_CHANNEL);
      outFrame.WriteVaruint(n);
      assert response.data[..n] == payload;
      outFrame.Write(response.data[..n]);
    }

    // Sends up to `maxBytes` of the response, or all that fits if negative.
    method WriteResponse(maxBytes: int)
      requires Valid()
      modifies response, response.data, outFrame, outFrame.data, this`sent, this`payloads
      ensures Valid()
      ensures Replied(old(sent), old(response.View()), maxBytes)
    {
      hide ResponseFrame, Carry, Concat, Batch;
      var n := Batch(response.pos, maxBytes);
      FillFrame(n);
      ghost var payload := response.View()[..n];
      response.Consume(n);
      CarryMore(sent, payloads, payload);
      payloads := payloads + [payload];
      sent := sent + [outFrame.data[..outFrame.pos]];
    }

    method DecodeFrame(frame: Frame) returns (r: Request)
      ensures r == Decode(id, frame)
    {
      hide Carry, Concat, DeviceVaruint;
      if frame.dest != id && frame.dest != 0x7F {
        return Ignored;
      }
      var subframe, p := ReadVaruint(frame.data, 0);
      assert frame.data[0..] == frame.data;
      if subframe == None || (subframe.value != CLIENT_TO_SERVER && subframe.value != CLIENT_POLL_SERVER) {
        return Ignored;
      }
      var pollOnly := subframe.value == CLIENT_POLL_SERVER;
      var query := frame.source / 128 % 2 == 1;
      var channel, q := ReadVaruint(frame.data, p);
      if channel == None || channel.value != TUNNEL_CHANNEL {
        return Ignored;
      }
      var bytes, start := ReadVaruint(frame.data, q);
      if bytes == None {
        return Ignored;
      }
      if pollOnly {
        return Poll(bytes.value, query);
      }
      if |frame.data| - start < bytes.value {
        return Ignored;
      }
      return Tunnel(frame.data[start..start + bytes.value], query);
    }

    // Takes one frame: appends tunnelled bytes to the command buffer and, for
    // a query, sends a response. Bytes that do not fit empty the buffer.
    method ReadFrame(frame: Frame)
      requires Valid()
      modifies command, command.data, response, response.data, outFrame, outFrame.data, this`sent, this`payloads
      ensures Valid()
      ensures var r := Decode(id, frame);
        && command.View() == Received(old(command.View()), r)
        && if r.Ignored? || !r.query || (r.Tunnel? && old(command.pos) + |r.bytes| > CAPACITY)
           then NoReply(old(sent), old(response.View()))
           else Replied(old(sent), old(response.View()), if r.Poll? then ToInt32(r.limit) else -1)
    {
      hide Decode, Concat, Carry, ResponseFrame;
      var request := DecodeFrame(frame);
      match request {
        case Ignored =>
        case Tunnel(bytes, query) =>
          if command.pos + |bytes| > CAPACITY {
            command.Clear();
            return;
          }
          command.Write(bytes);
          if query {
            WriteResponse(-1);
          }
        case Poll(limit, query) =>
          if query {
            WriteResponse(ToInt32(limit));
          }
      }
    }

    ghost predicate NoReply(sent0: seq<seq<Byte>>, response0: seq<Byte>)
      requires response.Valid()
      reads this, response, response.data
    {
      sent == sent0 && response.View() == response0
    }

    ghost predicate Replied(sent0: seq<seq<Byte>>, response0: seq<Byte>, limit: int)
      requires response.Valid()
      reads this, response, response.data
    {
      var n := Batch(|response0|, limit);
      sent == sent0 + [ResponseFrame(response0[..n])] && response.View() == response0[n..]
    }

    // One turn of the server's loop; `restarted` after a `reset` line that
    // could lock the flash.
    method Step(frame: Frame) returns (ghost effect: Effect, restarted: bool)
      requires Valid()
      modifies Repr()
      ensures Valid() && Confined(old(flash.View()), flash.View())
      ensures flash.flash.ops != old(flash.flash.ops) ==> old(unlocked)
      ensures var r := Decode(id, frame);
        r.Ignored? || !r.query ==>
          RanLine(Received(old(command.View()), r), command.View(), old(response.View()), response.View(),
                  old(flash.View()), flash.View(), effect)
          && restarted == (Resets(Received(old(command.View()), r)) && !unlocked)
      ensures restarted ==> !unlocked && response.View() == BannerText(date, time)
      ensures var r := Decode(id, frame);
        old(command.View()) == [] && r.Poll? && r.query ==>
          Replied(old(sent), old(response.View()), ToInt32(r.limit))
          && command.View() == [] && flash.View() == old(flash.View()) && !restarted
    {
      hide Confined, Concat, Carry, Decode, Executed, Spares, Parse, ResponseFrame, BannerText;
      ReadFrame(frame);
      effect, restarted := RunLine();
    }

    // Some first bytes of a `w` line.
    method PartialWrite(addressText: seq<Byte>, dataText: seq<Byte>)
      requires Valid() && |dataText| <= CAPACITY
      modifies response, response.data, this`accepted, flash, flash.erased, flash.flash, flash.flash.cells
      ensures Valid() && Confined(old(flash.View()), flash.View())
      ensures Spares(WriteCmd(addressText, dataText), old(flash.View()), flash.View())
      ensures !old(unlocked) ==> flash.View() == old(flash.View())
    {
      hide Confined, StaysOn, IsError, SoFar, SpellsBlock, Concat, Carry, HexFold, InOnePage;
      hide Session.Clean, Session.Ready, Session.Image, Session.Touched;
      ConfinedTwice(flash.View(), flash.View(), flash.View());
      SparesSame(WriteCmd(addressText, dataText), flash.View());
      var address := HexToI(addressText);
      if address == None {
        return;
      }
      var cut: int := *;
      var done := if 0 <= cut <= |dataText| / 2 then cut else 0;
      Below16(addressText);
      InOnePageLess(address.value, |dataText| / 2, done);
      ghost var before := flash.View();
      var _, _ := WritePairs(address.value, dataText[..2 * done]);
      ghost var written := flash.View();
      if unlocked && !flash.locked {
        Torn();
      }
      ConfinedTwice(before, written, flash.View());
      StaysOnTwice(before, written, flash.View(), PageAt(address.value));
      KeepsVectorTwice(before, written, flash.View());
    }

    // The supply fails in the flush of the open double-word, or outside it.
    method Torn()
      requires Valid() && unlocked
      modifies flash.flash, flash.flash.cells
      ensures Valid() && Confined(old(flash.View()), flash.View())
      ensures forall page: int :: StaysOn(old(flash.View()), flash.View(), page)
      ensures KeepsVector(old(flash.View()), flash.View())
      ensures old(flash.View()).open == -1 ==> flash.View().open == -1 && flash.View().cells == old(flash.View()).cells
    {
      hide Concat, Carry, KeepsVector, Session.Clean, Session.Ready, Session.Image, Session.Touched;
      ghost var before := flash.View();
      KeepsVectorTwice(before, before, before);
      MovedConfined(before, before);
      if * {
        flash.Tear();
        MovedConfined(before, flash.View());
      }
    }

    // Power fails while `line` is being executed: some of its bytes, the last
    // operation possibly torn, and then a restart.
    method Brownout(line: Command)
      requires Valid() && (line.WriteCmd? ==> |line.data| <= CAPACITY)
      modifies Repr()
      ensures Valid() && command.View() == [] && Confined(old(flash.View()), flash.View())
      ensures !unlocked && flash.View().open == -1 && flash.View().Touched() == {}
      ensures Spares(line, old(flash.View()), flash.View())
      ensures !old(unlocked) ==> flash.View().cells == old(flash.View()).cells
      ensures response.View() == BannerText(date, time)
    {
      hide Confined, Spares, Concat, Carry;
      hide Session.Clean, Session.Ready, Session.Image, Session.Touched;
      ghost var before := flash.View();
      ConfinedTwice(before, before, before);
      SparesSame(line, before);
      match line {
        case WriteCmd(address, data) => PartialWrite(address, data);
        case Lock =>
          var done: bool := *;
          if done {
            ExecuteLock();
          } else if unlocked {
            Torn();
          }
        case _ =>
      }
      ghost var cut := flash.View();
      Restart();
      ConfinedTwice(before, cut, flash.View());
      SparesRestart(line, before, cut, flash.View());
    }

    // Whatever the frames contain, only the application is ever operated on.
    method Serve(frames: seq<Frame>)
      requires Valid()
      modifies Repr()
      ensures Valid() && Confined(old(flash.View()), flash.View())
    {
      hide Confined, Concat, Carry;
      ConfinedTwice(flash.View(), flash.View(), flash.View());
      for i := 0 to |frames|
        invariant Valid() && Confined(old(flash.View()), flash.View())
      {
        ghost var before := flash.View();
        var _, _ := Step(frames[i]);
        ConfinedTwice(old(flash.View()), before, flash.View());
      }
    }
  }
}
