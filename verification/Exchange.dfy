// How one command of the flashing host can end: its frame lost or executed,
// the supply failing before, during or after, and frames of the reply missing.
module Exchange {
  import opened Octets
  import opened NorFlash
  import opened FlashWriter
  import opened Codec
  import opened CommandLine
  import opened CommandServer
  import opened HostText
  import opened Bootloader
  import opened ReadStream

  // What becomes of a command frame; `Cut` when the supply fails while the
  // line is being executed.
  datatype Fate = Lost | Done | Cut

  // One command: the session and the response bytes its frame met, after a
  // `reset` or not; what it left; whether the bootloader serves then; and what
  // polling took: `taken` frames, or, once the supply failed again, a banner
  // behind `lead`.
  datatype Run = Run(v: Session, before: seq<Byte>, reset: bool, fate: Fate, effect: Effect,
                     w: Session, after: seq<Byte>, serving: bool,
                     struck: bool, from: seq<int>, e: nat, taken: nat, lead: seq<Byte>)

  // RAM as after a reset.
  ghost predicate Restarted(v: Session)
    requires v.Ok()
  {
    v.locked && v.open == -1 && v.Touched() == {}
  }

  ghost predicate Met(v0: Session, p: seq<Byte>, banner: seq<Byte>, r: Run)
  {
    && r.v.Ok()
    && if r.reset then Restarted(r.v) && r.v.cells == v0.cells && r.before == banner else r.v == v0 && r.before == p
  }

  ghost predicate Fared(line: Command, banner: seq<Byte>, r: Run)
    requires r.v.Ok()
  {
    && r.w.Ok()
    && match r.fate
       case Lost => r.w == r.v && r.after == r.before && (r.reset ==> r.serving == !Boots(r.v.cells))
       case Done =>
         && r.serving && (r.reset ==> !Boots(r.v.cells))
         && Executed(line, r.before, r.after, r.v, r.w, r.effect) && Spares(line, r.v, r.w)
       case Cut =>
         && Restarted(r.w) && r.after == banner && r.serving == !Boots(r.w.cells)
         && Spares(line, r.v, r.w) && (r.v.locked ==> r.w.cells == r.v.cells)
  }

  ghost predicate Heard(banner: seq<Byte>, r: Run, reply: Option<seq<Byte>>, v': Session, p': seq<Byte>)
    requires r.w.Ok()
  {
    && v'.Ok()
    && if r.struck then
         && Restarted(v') && v'.cells == r.w.cells && (p' == [] || p' == banner)
         && (reply.Some? ==> !Boots(v'.cells) && p' == [] && reply.value == r.lead + banner)
       else
         && v' == r.w && p' == Drop(r.after, r.taken)
         && (reply.Some? ==> r.serving && Gathered(r, reply.value))
  }

  // The reply is made of frames of what was waiting and ends with a line end.
  ghost predicate Gathered(r: Run, reply: seq<Byte>)
  {
    Picked(r.after, reply, r.from) && LineAtEnd(reply, r.e) && r.taken == r.from[|reply| - 1] / 61 + 1
  }

  ghost predicate Exchanged(line: Command, v0: Session, p: seq<Byte>, banner: seq<Byte>,
                            r: Run, reply: Option<seq<Byte>>, v': Session, p': seq<Byte>)
  {
    v0.Ok() && |banner| == 54 && Met(v0, p, banner, r) && Fared(line, banner, r) && Heard(banner, r, reply, v', p')
  }

  // Polling only adds to the account of a command.
  lemma MetFared(v0: Session, p: seq<Byte>, banner: seq<Byte>, line: Command, r: Run, r': Run)
    requires Met(v0, p, banner, r) && Fared(line, banner, r)
    requires SameSent(r, r')
    ensures Met(v0, p, banner, r') && Fared(line, banner, r')
  {
    hide Executed, Spares, Boots;
  }

  // The host works on a bootloader that restarted unnoticed: locked, and with
  // nothing in flash that it would start.
  ghost predicate Astray(v: Session)
    requires v.Ok()
  {
    v.locked && v.open == -1 && !Boots(v.cells)
  }

  // Between two commands nothing is waiting, unless the bootloader went astray.
  ghost predicate Settled(v: Session, p: seq<Byte>)
    requires v.Ok()
  {
    p == [] || (Astray(v) && |p| <= 39)
  }

  // ---- Polling ---------------------------------------------------------------------

  // The frames taken so far, the first `k` of them at most.
  ghost predicate Gathering(p: seq<Byte>, s: seq<Byte>, from: seq<int>, k: nat)
  {
    Picked(p, s, from) && (s == [] || from[|s| - 1] < 61 * k)
  }

  ghost function Onward(from: seq<int>, k: nat, n: nat): (from': seq<int>)
  {
    from + seq<int>(n, i => 61 * k + i)
  }

  lemma GatherStart(p: seq<Byte>)
    ensures Gathering(p, [], [], 0) && Drop(p, 0) == p
  {
  }

  lemma DropNext(p: seq<Byte>, k: nat)
    ensures Drop(p, k)[Batch(|Drop(p, k)|, 61)..] == Drop(p, k + 1)
  {
  }

  lemma GatherMore(p: seq<Byte>, s: seq<Byte>, from: seq<int>, k: nat, chunk: seq<Byte>)
    requires Gathering(p, s, from, k) && chunk == Drop(p, k)[..Batch(|Drop(p, k)|, 61)] && chunk != []
    ensures Gathering(p, s + chunk, Onward(from, k, |chunk|), k + 1) && Index(|s|) == 0 && |chunk| <= 61
    ensures Onward(from, k, |chunk|)[|s| + |chunk| - 1] / 61 == k
  {
    var from', t := Onward(from, k, |chunk|), s + chunk;
    assert Index(61 * k) == 0;
    hide Index;
    forall z | 0 <= z < |t|
      ensures 0 <= from'[z] < |p| && t[z] == p[from'[z]] && Index(from'[z]) == Index(z)
    {
      if z >= |s| {
        IndexIn(|s|, z - |s|);
        IndexIn(61 * k, z - |s|);
      }
    }
    forall z | 0 < z < |t|
      ensures FollowsAt(from', z)
    {
      if z < |s| {
        assert FollowsAt(from, z);
      } else if z > |s| {
        IndexIn(|s|, z - |s|);
      }
    }
    IndexIn(|s|, |chunk|);
  }

  lemma LastLine(s: seq<Byte>, chunk: seq<Byte>)
    requires LF !in s && LF in s + chunk && Index(|s|) == 0 && |chunk| <= 61
    ensures LineAtEnd(s + chunk, |s|)
  {
    assert (s + chunk)[..|s|] == s && (s + chunk)[|s|..] == chunk;
  }

  lemma GatherLater(p: seq<Byte>, s: seq<Byte>, from: seq<int>, k: nat)
    requires Gathering(p, s, from, k)
    ensures Gathering(p, s, from, k + 1)
  {
  }

  // A poll takes the next frame or loses it, or meets a banner.
  ghost predicate Polled(banner: seq<Byte>, v: Session, p: seq<Byte>, serving: bool, chunk: Option<seq<Byte>>,
                         reset: bool,
                         v': Session, p': seq<Byte>, serving': bool)
  {
    && v.Ok() && v'.Ok() && v'.cells == v.cells && (chunk.Some? ==> serving')
    && if reset then
         && Restarted(v') && serving' == !Boots(v'.cells)
         && if chunk.Some? then chunk.value == banner && p' == [] else p' == [] || p' == banner
       else
         && v' == v && serving' == serving
         && var n := Batch(|p|, 61);
           if chunk.Some? then chunk.value == p[..n] && p' == p[n..] else p' == p || p' == p[n..]
  }

  // Half-way through polling, with no line end yet.
  ghost predicate Polling(banner: seq<Byte>, r: Run, result: seq<Byte>, v: Session, p: seq<Byte>, serving: bool)
    requires r.w.Ok()
  {
    && v.Ok() && v.cells == r.w.cells && LF !in result
    && if r.struck then
         Restarted(v) && serving == !Boots(v.cells) && (p == [] || p == banner)
       else
         v == r.w && serving == r.serving && p == Drop(r.after, r.taken) && Gathering(r.after, result, r.from, r.taken)
  }

  ghost predicate SameSent(r: Run, r': Run)
  {
    r' == r.(struck := r'.struck, from := r'.from, e := r'.e, taken := r'.taken, lead := r'.lead)
  }

  lemma SentTwice(r: Run, r': Run, r'': Run)
    ensures SameSent(r, r)
    ensures SameSent(r, r') && SameSent(r', r'') ==> SameSent(r, r'')
    ensures SameSent(r, r') ==> r'.w == r.w && r'.serving == r.serving && r'.after == r.after
    ensures SameSent(r', r'') ==> r''.w == r'.w && r''.serving == r'.serving && r''.after == r'.after
  {
  }

  lemma PollStep(banner: seq<Byte>, r: Run, result: seq<Byte>, v: Session, p: seq<Byte>, serving: bool,
                 chunk: Option<seq<Byte>>, reset: bool, v': Session, p': seq<Byte>, serving': bool) returns (r': Run)
    requires r.w.Ok() && |banner| == 54 && LF in banner && Polling(banner, r, result, v, p, serving)
    requires Polled(banner, v, p, serving, chunk, reset, v', p', serving')
    ensures SameSent(r, r') && r'.struck == (r.struck || reset) && LF !in result
    ensures var s := if chunk.Some? then result + chunk.value else result;
      if LF in s then Heard(banner, r', Some(s), v', p') else Polling(banner, r', s, v', p', serving')
  {
    hide Drop, Gathering, Onward, LineAtEnd, Picked, Boots, Restarted, Session.Touched, Session.Image;
    var k := r.taken;
    if reset || r.struck {
      r' := r.(struck := true, lead := result);
      assert result + [] == result;
    } else {
      DropNext(r.after, k);
      GatherLater(r.after, result, r.from, k);
      if chunk.Some? && chunk.value != [] {
        GatherMore(r.after, result, r.from, k, chunk.value);
        r' := r.(from := Onward(r.from, k, |chunk.value|), e := |result|, taken := k + 1);
        if LF in result + chunk.value {
          LastLine(result, chunk.value);
          GatheredNow(r', result + chunk.value);
        }
      } else {
        r' := if p' == p then r else r.(taken := k + 1);
        assert result + [] == result;
      }
    }
  }

  lemma GatheredNow(r: Run, s: seq<Byte>)
    requires s != [] && Gathering(r.after, s, r.from, r.taken) && LineAtEnd(s, r.e)
    requires |r.from| == |s| ==> r.from[|s| - 1] / 61 + 1 == r.taken
    ensures Gathered(r, s)
  {
  }

  lemma PollStart(banner: seq<Byte>, r: Run, serving: bool)
    requires r.w.Ok() && !r.struck && r.from == [] && r.taken == 0 && r.serving == serving
    ensures Polling(banner, r, [], r.w, r.after, serving)
  {
    GatherStart(r.after);
  }

  lemma PollGivesUp(banner: seq<Byte>, r: Run, result: seq<Byte>, v: Session, p: seq<Byte>, serving: bool)
    requires r.w.Ok() && Polling(banner, r, result, v, p, serving)
    ensures Heard(banner, r, None, v, p) && LF !in result
  {
  }

  // ---- What the polls leave ------------------------------------------------------

  lemma {:induction false} OneFrame(r: Run, reply: seq<Byte>)
    requires Gathered(r, reply) && |r.after| <= 61
    ensures reply == r.after && Drop(r.after, r.taken) == []
  {
    hide Index;
    assert r.from[0] == 0 by {
      FrameAt(0);
      FrameAt(r.from[0]);
    }
    forall z | 0 <= z < |reply|
      ensures r.from[z] == z
    {
      Ascending(r.after, reply, r.from, 0, z);
      FromStart(r, reply, z);
    }
    assert Index(|reply|) == 0 ==> |reply| == 61 by {
      FrameAt(|reply|);
    }
    assert r.taken >= 1;
  }

  lemma FromStart(r: Run, reply: seq<Byte>, z: nat)
    requires Gathered(r, reply) && |r.after| <= 61 && z < |reply| && z <= r.from[z]
    ensures r.from[z] == z
  {
    hide LineAtEnd, FollowsAt, Drop;
    var x := r.from[z];
    assert 0 <= x < 61 && Index(x) == Index(z);
  }

  lemma FewLeft(r: Run, reply: seq<Byte>)
    requires Gathered(r, reply) && |r.after| <= 100
    ensures |Drop(r.after, r.taken)| <= 39
    ensures |r.after| <= 61 ==> Drop(r.after, r.taken) == []
    ensures r.after != []
  {
    assert r.from[|reply| - 1] >= 0;
  }

  // ---- A restart before or while the line is executed ----------------------------

  lemma SparesBehind(line: Command, v0: Session, v: Session, w: Session)
    requires v0.Ok() && v.Ok() && w.Ok() && Restarted(v) && v.cells == v0.cells && Spares(line, v, w)
    requires line.WriteCmd? ==> w.cells == v.cells
    ensures Spares(line, v0, w)
  {
  }

  lemma LockedWrite(line: Command, before: seq<Byte>, after: seq<Byte>, v: Session, w: Session, effect: Effect)
    requires v.Ok() && w.Ok() && line.WriteCmd? && v.locked && Executed(line, before, after, v, w, effect)
    ensures w == v
  {
  }

  lemma SparesExchange(line: Command, v0: Session, p: seq<Byte>, banner: seq<Byte>,
                       r: Run, reply: Option<seq<Byte>>, v': Session, p': seq<Byte>)
    requires Exchanged(line, v0, p, banner, r, reply, v', p')
    ensures Spares(line, v0, v')
  {
    hide Executed, IsError, BlockStored, InOnePage, HexValue, Session.Image, Session.Touched;
    SparesSame(line, v0);
    SparesSame(line, r.v);
    if r.reset && r.fate.Done? && line.WriteCmd? {
      LockedWrite(line, r.before, r.after, r.v, r.w, r.effect);
    }
    if r.reset {
      SparesBehind(line, v0, r.v, r.w);
    }
    if r.struck {
      SparesRestart(line, v0, r.w, v');
    }
  }

  // ---- Writing ---------------------------------------------------------------------

  function HostWrite(address: nat, block: seq<Byte>): (c: Command)
  {
    WriteCmd(HexText(address, 8), HexBlock(block))
  }

  lemma WriteDone(address: nat, block: seq<Byte>, v: Session, w: Session, before: seq<Byte>, after: seq<Byte>,
                  effect: Effect)
    requires v.Ok() && w.Ok() && address < TWO32
    requires Executed(HostWrite(address, block), before, after, v, w, effect)
    ensures |after| <= |before| + 46 && (v.locked ==> w == v)
    ensures before == [] ==> IsError(after) || (!v.locked && SoFar(v, w, address, block))
  {
    hide SoFar, SpellsBlock, HexFold, HexText, HexBlock, IsError;
    AddressText(address);
    HexBlockSpells(block);
    if effect.Wrote? {
      SpellsOne(HexBlock(block), block, effect.data);
    }
  }

  // Whatever the host takes for success, the block has been stored or the
  // bootloader went astray.
  lemma WriteSettles(address: nat, block: seq<Byte>, v0: Session, p: seq<Byte>, banner: seq<Byte>,
                     r: Run, reply: seq<Byte>, v': Session, p': seq<Byte>)
    requires address < TWO32 && Exchanged(HostWrite(address, block), v0, p, banner, r, Some(reply), v', p')
    requires Settled(v0, p) && !(Ascii("ERR") <= Strip(reply))
    ensures (p' == [] && !v0.locked && SoFar(v0, v', address, block)) || (Astray(v') && |p'| <= 39)
  {
    hide Executed, Spares, SoFar, Boots, Strip, HostWrite, IsError, Gathered, Session.Touched, Drop;
    if !r.struck {
      if r.fate.Done? {
        WriteDone(address, block, r.v, r.w, r.before, r.after, r.effect);
      }
      FewLeft(r, reply);
      if r.fate.Done? && r.before == [] && IsError(r.after) {
        ErrorIsHeard(r, reply);
      }
    }
  }

  // The supply held from the command's frame to the end of its reply.
  ghost predicate Supplied(r: Run)
  {
    !r.reset && !r.fate.Cut? && !r.struck
  }

  // How many more writes what is waiting can be taken for the replies of.
  function Leftover(p: seq<Byte>): (n: nat)
  {
    (|p| + 14) / 15
  }

  // A write taken for done by a bootloader not astray was done with the supply
  // holding; one taken for done by a bootloader astray met a supply failure or
  // used up some of what was left waiting.
  lemma WriteTaken(address: nat, block: seq<Byte>, v0: Session, p: seq<Byte>, banner: seq<Byte>,
                   r: Run, reply: seq<Byte>, v': Session, p': seq<Byte>)
    requires address < TWO32 && Exchanged(HostWrite(address, block), v0, p, banner, r, Some(reply), v', p')
    requires Settled(v0, p) && !(Ascii("ERR") <= Strip(reply))
    ensures !Astray(v') ==> Supplied(r) && r.fate.Done? && p == [] && p' == [] && r.effect.Wrote?
    ensures Astray(v') && Supplied(r) ==> Astray(v0) && p != [] && Leftover(p') < Leftover(p)
    ensures v0.locked ==> Astray(v')
  {
    hide Executed, Spares, SoFar, Boots, Strip, HostWrite, IsError, Gathered, Session.Touched, Drop;
    if !r.struck {
      if r.fate.Done? {
        WriteDone(address, block, r.v, r.w, r.before, r.after, r.effect);
        WriteKeepsLock(address, block, r.v, r.w, r.before, r.after, r.effect);
      }
      FewLeft(r, reply);
      OneTaken(r, reply);
      if r.fate.Done? && r.before == [] && IsError(r.after) {
        ErrorIsHeard(r, reply);
      }
    }
  }

  lemma OneTaken(r: Run, reply: seq<Byte>)
    requires Gathered(r, reply)
    ensures |Drop(r.after, r.taken)| + 61 <= |r.after| || Drop(r.after, r.taken) == []
  {
    assert r.from[|reply| - 1] >= 0;
  }

  lemma WriteKeepsLock(address: nat, block: seq<Byte>, v: Session, w: Session, before: seq<Byte>, after: seq<Byte>,
                       effect: Effect)
    requires v.Ok() && w.Ok() && address < TWO32
    requires Executed(HostWrite(address, block), before, after, v, w, effect)
    ensures effect.Wrote? ==> w.locked == v.locked && !v.locked
    ensures !effect.Wrote? && before == [] ==> IsError(after)
  {
    hide SoFar, SpellsBlock, HexFold, HexText, HexBlock, IsError;
    AddressText(address);
    HexBlockSpells(block);
  }

  lemma ErrorIsHeard(r: Run, reply: seq<Byte>)
    requires Gathered(r, reply) && IsError(r.after)
    ensures Ascii("ERR") <= Strip(reply)
  {
    hide Strip;
    OneFrame(r, reply);
    StripKeepsError(reply);
  }

  // ---- Lock, unlock and echo ---------------------------------------------------------

  lemma LockSettles(v0: Session, p: seq<Byte>, banner: seq<Byte>, r: Run, reply: seq<Byte>, v': Session, p': seq<Byte>)
    requires Exchanged(Command.Lock, v0, p, banner, r, Some(reply), v', p') && Settled(v0, p) && v0.open == -1
    ensures v'.cells == v0.cells && v'.open == -1 && p' == []
  {
    hide Boots, Gathered, Session.Touched, Drop, IsError, Session.Clean, Session.Ready;
    SparesExchange(Command.Lock, v0, p, banner, r, Some(reply), v', p');
    if !r.struck {
      FewLeft(r, reply);
    }
  }

  // Whether a new session was opened or a banner was taken for one, nothing is
  // open and no page is marked erased.
  lemma UnlockSettles(v0: Session, banner: seq<Byte>, r: Run, reply: seq<Byte>, v': Session, p': seq<Byte>)
    requires Exchanged(Command.Unlock, v0, [], banner, r, Some(reply), v', p')
    ensures v'.cells == v0.cells && v'.open == -1 && v'.Touched() == {} && p' == []
  {
    hide Boots, Gathered, Drop, Session.Clean, Session.Ready;
    SparesExchange(Command.Unlock, v0, [], banner, r, Some(reply), v', p');
    if !r.struck {
      FewLeft(r, reply);
    }
  }

  // A session just opened by `unlock`.
  ghost predicate Opened(v: Session)
    requires v.Ok()
  {
    !v.locked && v.Ready() && v.Position() == FRESH
  }

  // An `unlock` taken for done opened a session, or the supply failed.
  lemma UnlockTaken(v0: Session, banner: seq<Byte>, r: Run, reply: seq<Byte>, v': Session, p': seq<Byte>)
    requires Exchanged(Command.Unlock, v0, [], banner, r, Some(reply), v', p')
    ensures Opened(v') || (Astray(v') && !Supplied(r))
  {
    hide Boots, Gathered, Drop, Session.Clean, Session.Ready;
    if !r.struck {
      FewLeft(r, reply);
      if r.fate.Done? {
        UnlockOpens(r.before, r.after, r.v, r.w, r.effect);
      }
    }
  }

  lemma UnlockOpens(before: seq<Byte>, after: seq<Byte>, v: Session, w: Session, effect: Effect)
    requires v.Ok() && w.Ok() && Executed(Command.Unlock, before, after, v, w, effect)
    ensures Opened(w)
  {
    hide Session.Clean, Session.Ready;
    assert PromiseOf(w).cursor == FRESH;
  }

  function ReadyText(): (s: seq<Byte>) { Ascii("ready") + [LF] }

  lemma EchoSettles(v0: Session, banner: seq<Byte>, r: Run, reply: seq<Byte>, v': Session, p': seq<Byte>)
    requires Exchanged(Echo(ReadyText()), v0, [], banner, r, Some(reply), v', p')
    ensures p' == []
  {
    hide Boots, Gathered, Drop, Session.Touched, Session.Clean, Session.Ready;
    if !r.struck {
      FewLeft(r, reply);
    }
  }

  // ---- Reading back --------------------------------------------------------------------

  // What flash holds from an address on.
  function Held(cells: seq<Byte>, address: nat, size: nat): (data: seq<Byte>)
    requires |cells| == FLASH_SIZE && FLASH_START <= address && address + size <= FLASH_END
    ensures |data| == size
  {
    cells[address - FLASH_START..address - FLASH_START + size]
  }

  function HostRead(address: nat, size: nat): (c: Command)
  {
    ReadCmd(HexText(address, 8), SizeText(size))
  }

  lemma ReadsBytes(v: Session, addressText: seq<Byte>, sizeText: seq<Byte>, address: nat, size: nat)
    requires v.Ok() && size <= 32 && FLASH_START <= address && address + size <= FLASH_END
    requires HexValue(addressText) == Some(address) && HexValue(sizeText) == Some(size)
    ensures Readable(addressText, sizeText)
    ensures ReadBytes(v, addressText, sizeText) == Held(v.cells, address, size)
  {
    hide HexValue;
  }

  // The response to the host's `r` line.
  lemma ReadDone(address: nat, size: nat, v: Session, w: Session, before: seq<Byte>, after: seq<Byte>, effect: Effect)
    requires v.Ok() && w.Ok() && 0 < size <= 32 && FLASH_START <= address && address + size <= FLASH_END
    requires Executed(HostRead(address, size), before, after, v, w, effect)
    ensures w == v && after == PutRead(before, address, Held(v.cells, address, size))
  {
    hide HexText, SizeText, HexValue, PutRead, ReadLine, Held, ReadBytes;
    AddressText(address);
    ReadLineRead(address, size);
    ReadsBytes(v, HexText(address, 8), SizeText(size), address, size);
  }

  // What stale answers to this very read may be waiting.
  ghost predicate StaleAnswers(v: Session, p: seq<Byte>, banner: seq<Byte>, address: nat, size: nat)
    requires v.Ok() && FLASH_START <= address && address + size <= FLASH_END
  {
    Stale(p, ReadReply(address, Held(v.cells, address, size)), banner)
  }

  // What a read leaves waiting before anything of it has been taken.
  lemma ReadWaits(address: nat, size: nat, v0: Session, p: seq<Byte>, banner: seq<Byte>,
                  r: Run, reply: Option<seq<Byte>>, v': Session, p': seq<Byte>)
    requires Exchanged(HostRead(address, size), v0, p, banner, r, reply, v', p') && v0.open == -1
    requires 0 < size <= 32 && FLASH_START <= address && address + size <= FLASH_END
    requires StaleAnswers(v0, p, banner, address, size)
    ensures v'.cells == v0.cells && v'.open == -1
    ensures Stale(r.after, ReadReply(address, Held(v0.cells, address, size)), banner)
  {
    hide Executed, Boots, Gathered, Stale, ReadReply, PutRead, HostRead, Held, Drop, Session.Touched;
    SparesRead(address, size, v0, p, banner, r, reply, v', p');
    var data := Held(v0.cells, address, size);
    StaleStart(ReadReply(address, data), banner);
    if r.fate.Done? {
      ReadDone(address, size, r.v, r.w, r.before, r.after, r.effect);
      StaleRead(r.before, address, data, banner);
    }
  }

  lemma SparesRead(address: nat, size: nat, v0: Session, p: seq<Byte>, banner: seq<Byte>,
                   r: Run, reply: Option<seq<Byte>>, v': Session, p': seq<Byte>)
    requires Exchanged(HostRead(address, size), v0, p, banner, r, reply, v', p') && v0.open == -1
    ensures v'.cells == v0.cells && v'.open == -1
  {
    hide Executed, Exchanged;
    assert v0.Ok() && v'.Ok() by {
      ExchangedOk(HostRead(address, size), v0, p, banner, r, reply, v', p');
    }
    SparesExchange(HostRead(address, size), v0, p, banner, r, reply, v', p');
  }

  lemma ExchangedOk(line: Command, v0: Session, p: seq<Byte>, banner: seq<Byte>,
                    r: Run, reply: Option<seq<Byte>>, v': Session, p': seq<Byte>)
    requires Exchanged(line, v0, p, banner, r, reply, v', p')
    ensures v0.Ok() && r.v.Ok() && r.w.Ok() && v'.Ok() && |banner| == 54
  {
    hide Executed, Spares, Boots;
  }

  // Retrying a read keeps what is waiting a stream of answers to it.
  lemma ReadStaysStale(address: nat, size: nat, v0: Session, p: seq<Byte>, banner: seq<Byte>,
                       r: Run, reply: Option<seq<Byte>>, v': Session, p': seq<Byte>)
    requires Exchanged(HostRead(address, size), v0, p, banner, r, reply, v', p') && v0.open == -1
    requires 0 < size <= 32 && FLASH_START <= address && address + size <= FLASH_END
    requires StaleAnswers(v0, p, banner, address, size)
    ensures v'.cells == v0.cells && v'.open == -1 && StaleAnswers(v', p', banner, address, size)
  {
    hide Fared, Met, Gathered, Stale, ReadReply, HostRead, Held, Drop, Session.Touched;
    ReadWaits(address, size, v0, p, banner, r, reply, v', p');
    var text := ReadReply(address, Held(v0.cells, address, size));
    StaleStart(text, banner);
    StaleDrop(r.after, text, banner, r.taken);
  }

  lemma DigitsNeeded(text: seq<Byte>, v: nat)
    requires HexFold(text) == Some(v) && v >= 0x100_0000
    ensures |text| >= 7
  {
    assert Pow16(2) == 256 && Pow16(4) == 256 * Pow16(2) && Pow16(6) == 256 * Pow16(4);
    if |text| <= 6 {
      Pow16Monotonic(|text|, 6);
    }
  }

  // A line the host accepts as the block at this address is the block flash
  // holds there, and behind a full block nothing is left waiting.
  lemma ReadAccepted(address: nat, expected: seq<Byte>, v0: Session, p: seq<Byte>, date: seq<Byte>, time: seq<Byte>,
                     r: Run, reply: seq<Byte>, v': Session, p': seq<Byte>)
    requires Exchanged(HostRead(address, |expected|), v0, p, BannerText(date, time), r, Some(reply), v', p') && v0.open == -1
    requires 0 < |expected| <= 32 && FLASH_START <= address && address + |expected| <= FLASH_END
    requires StaleAnswers(v0, p, BannerText(date, time), address, |expected|)
    requires var f := Fields(Strip(reply)); |f| == 2 && HexFold(f[0]) == Some(address) && SpellsBlock(f[1], expected)
    ensures Held(v0.cells, address, |expected|) == expected
    ensures |expected| == 32 ==> p' == []
  {
    hide Fared, Met, Stale, ReadReply, HostRead, Held, Drop, Fields, Strip, UpperBlock, HexFold, BannerText;
    hide Session.Touched;
    var data, banner := Held(v0.cells, address, |expected|), BannerText(date, time);
    ReadWaits(address, |expected|, v0, p, banner, r, Some(reply), v', p');
    DigitsNeeded(Fields(Strip(reply))[0], address);
    if r.struck {
      BannerIsNoAnswer(r.lead, date, time);
      assert false;
    }
    hide SpellsBlock;
    var text := ReadReply(address, data);
    ReadReplyShape(address, data);
    var a, b, c, d := WordsOfLine(reply);
    AcceptedIsRead(r.after, text, |data|, date, time, reply, r.from, r.e, a, b, c, d);
    UpperBlockSpells(data);
    SpellsOne(UpperBlock(data), data, expected);
  }

  // ---- When nothing goes wrong ---------------------------------------------------------

  lemma PlainRun(line: Command, v0: Session, p: seq<Byte>, banner: seq<Byte>,
                 r: Run, reply: Option<seq<Byte>>, v': Session, p': seq<Byte>)
    requires Exchanged(line, v0, p, banner, r, reply, v', p') && !r.reset && r.fate.Done? && !r.struck
    ensures v0.Ok() && v'.Ok() && Executed(line, p, r.after, v0, v', r.effect)
  {
    hide Executed, Spares;
  }

  lemma HostWriteIs(address: nat, block: seq<Byte>)
    ensures HostWrite(address, block) == WriteCmd(HexText(address, 8), HexBlock(block))
  {
  }

  lemma HostReadIs(address: nat, size: nat)
    ensures HostRead(address, size) == ReadCmd(HexText(address, 8), SizeText(size))
  {
  }
}
