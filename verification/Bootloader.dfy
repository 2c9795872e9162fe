// What a reset of the target leads to: the command server, or the application
// the bootloader finds in flash.
module Bootloader {
  import opened Octets
  import opened NorFlash
  import opened FlashWriter
  import opened CommandLine
  import opened CommandServer
  import opened Buffers

  // Where the application starts, as an offset into flash.
  const APP: nat := APP_START - FLASH_START

  // A little-endian 32-bit word.
  function Word(bytes: seq<Byte>): (v: nat)
    requires |bytes| == 4
  {
    bytes[0] as int + 0x100 * bytes[1] as int + 0x1_0000 * bytes[2] as int + 0x100_0000 * bytes[3] as int
  }

  // A stack pointer into RAM and the odd address of an entry point.
  predicate BootVector(v: seq<Byte>)
    requires |v| == 8
  {
    && 0x2000_0200 <= Word(v[..4]) <= 0x2002_0000 && Word(v[..4]) % 8 == 0
    && APP_START <= Word(v[4..]) < FLASH_END && Word(v[4..]) % 2 == 1
  }

  // The bootloader would start what is in flash.
  predicate Boots(cells: seq<Byte>)
    requires |cells| == FLASH_SIZE
  {
    BootVector(cells[APP..APP + 8])
  }

  lemma BootsSame(cells: seq<Byte>, cells': seq<Byte>)
    requires |cells| == |cells'| == FLASH_SIZE && cells[APP..APP + 8] == cells'[APP..APP + 8]
    ensures Boots(cells') <==> Boots(cells)
  {
  }

  // Erased flash and a half-written vector are no application.
  lemma ErasedBootsNot(cells: seq<Byte>)
    requires |cells| == FLASH_SIZE && (cells[APP + 3] == ERASED || cells[APP + 7] == ERASED)
    ensures !Boots(cells)
  {
  }

  datatype BootState = InitHardware | Decide | JumpToApp | EnterServe | Serving | AppStarted

  function Rank(state: BootState): (n: nat)
  {
    match state
    case InitHardware => 4
    case Decide => 3
    case JumpToApp => 2
    case EnterServe => 1
    case _ => 0
  }

  // The board: the command server answers only while the bootloader serves;
  // an application takes no notice of its frames.
  class Target {
    const server: Server
    var serving: bool
    // The request word in RAM an application leaves before it resets.
    var requested: bool

    ghost function Repr(): set<object>
    {
      {this} + server.Repr()
    }

    ghost predicate Valid()
      reads Repr()
    {
      server.Valid() && !requested && this !in server.Repr()
    }

    ghost function Flash(): (v: Session)
      requires Valid()
      reads Repr()
      ensures v.Ok()
    {
      server.flash.View()
    }

    constructor (server: Server, serving: bool)
      requires server.Valid()
      ensures Valid() && this.server == server && this.serving == serving
    {
      this.server, this.serving, requested := server, serving, false;
    }

    method ReadWord(offset: nat) returns (v: nat)
      requires server.Valid() && offset + 4 <= FLASH_SIZE
      ensures v == Word(server.flash.flash.cells[offset..offset + 4])
    {
      hide Carry, Concat;
      v := Word(server.flash.flash.cells[offset..offset + 4]);
    }

    // Starts the application if its vector is one of an application.
    method TryApp() returns (jumped: bool)
      requires server.Valid()
      ensures jumped <==> Boots(server.flash.flash.cells[..])
    {
      hide Carry, Concat, Word;
      ghost var v := server.flash.flash.cells[..][APP..APP + 8];
      var sp := ReadWord(APP);
      var pc := ReadWord(APP + 4);
      assert v[..4] == server.flash.flash.cells[APP..APP + 4] && v[4..] == server.flash.flash.cells[APP + 4..APP + 8];
      if sp < 0x2000_0200 || sp > 0x2002_0000 || sp % 8 != 0 {
        return false;
      }
      if pc < APP_START || pc >= FLASH_END || pc % 2 == 0 {
        return false;
      }
      return true;
    }

    // The boot state machine: a request is consumed, and without one an
    // application that can be started is.
    method Boot()
      requires server.Valid() && this !in server.Repr()
      modifies this
      ensures Valid() && serving == (old(requested) || !Boots(server.flash.flash.cells[..]))
    {
      assert server.flash.flash.cells.Length == FLASH_SIZE;
      hide Carry, Concat, Server.Valid, Boots;
      var state := InitHardware;
      while state != Serving && state != AppStarted
        invariant server.Valid() && this !in server.Repr() && server.flash.flash.cells.Length == FLASH_SIZE
        invariant (state == InitHardware || state == Decide) ==> requested == old(requested)
        invariant state == JumpToApp ==> !old(requested)
        invariant Rank(state) < 3 ==> !requested
        invariant state == EnterServe || state == Serving ==> old(requested) || !Boots(server.flash.flash.cells[..])
        invariant state == AppStarted ==> !old(requested) && Boots(server.flash.flash.cells[..])
        decreases Rank(state)
      {
        match state {
          case InitHardware =>
            state := Decide;
          case Decide =>
            state := if requested then EnterServe else JumpToApp;
            requested := false;
          case JumpToApp =>
            var jumped := TryApp();
            state := if jumped then AppStarted else EnterServe;
          case _ =>
            state := Serving;
        }
      }
      serving := state == Serving;
    }

    // The supply fails while nothing is being executed.
    method Restart()
      requires server.Valid() && this !in server.Repr()
      modifies Repr()
      ensures Valid() && server.command.View() == [] && Confined(old(server.flash.View()), Flash())
      ensures serving == (old(requested) || !Boots(Flash().cells))
      ensures Flash().locked && Flash().open == -1 && Flash().Touched() == {}
      ensures Flash().cells == old(server.flash.View()).cells
      ensures server.response.View() == BannerText(server.date, server.time)
    {
      hide Carry, Concat, Confined, Boots, BannerText, Session.Image;
      server.Restart();
      Boot();
    }

    // A request to an application; one that is not received changes nothing.
    // A bootloader takes no notice of it.
    method Request(received: bool)
      requires Valid() && server.command.View() == []
      modifies Repr()
      ensures Valid() && server.command.View() == [] && Confined(old(Flash()), Flash())
      ensures Flash().cells == old(Flash()).cells
      ensures if !old(serving) && received then serving && Flash().locked && Flash().open == -1 && Flash().Touched() == {}
        && server.response.View() == BannerText(server.date, server.time)
        else serving == old(serving) && Flash() == old(Flash()) && server.response.View() == old(server.response.View())
    {
      hide Carry, Concat, Confined, Boots, BannerText, Session.Image;
      ConfinedTwice(Flash(), Flash(), Flash());
      if !serving && received {
        requested := true;
        Restart();
      }
    }

    // The supply fails while `line` is being executed.
    method Brownout(line: Command)
      requires Valid() && (line.WriteCmd? ==> |line.data| <= CAPACITY)
      modifies Repr()
      ensures Valid() && server.command.View() == [] && Confined(old(Flash()), Flash())
      ensures serving == !Boots(Flash().cells)
      ensures Flash().locked && Flash().open == -1 && Flash().Touched() == {} && Spares(line, old(Flash()), Flash())
      ensures old(Flash()).locked ==> Flash().cells == old(Flash()).cells
      ensures server.response.View() == BannerText(server.date, server.time)
    {
      hide Carry, Concat, Confined, Boots, BannerText, Spares, Session.Image;
      server.Brownout(line);
      Boot();
    }

    // One frame; after a `reset` line the bootloader decides anew.
    method Receive(frame: Frame) returns (ghost effect: Effect)
      requires Valid()
      modifies Repr()
      ensures Valid() && Confined(old(Flash()), Flash())
      ensures !old(serving) ==> !serving && server.NoReply(old(server.sent), old(server.response.View()))
      ensures !old(serving) ==> Flash() == old(Flash()) && server.command.View() == old(server.command.View())
      ensures var r := Decode(server.id, frame);
        old(serving) && (r.Ignored? || !r.query) ==>
          && RanLine(Received(old(server.command.View()), r), server.command.View(),
                     old(server.response.View()), server.response.View(), old(Flash()), Flash(), effect)
          && serving == !(Resets(Received(old(server.command.View()), r)) && Flash().locked && Boots(Flash().cells))
      ensures var r := Decode(server.id, frame);
        old(serving) && old(server.command.View()) == [] && r.Poll? && r.query ==>
          && server.Replied(old(server.sent), old(server.response.View()), ToInt32(r.limit))
          && server.command.View() == [] && Flash() == old(Flash()) && serving
    {
      hide Carry, Concat, Confined, Boots, BannerText, RanLine, Decode, Resets, Received, ResponseFrame, Session.Image;
      ConfinedTwice(Flash(), Flash(), Flash());
      effect := Nothing;
      if serving {
        var restarted;
        effect, restarted := server.Step(frame);
        if restarted {
          Boot();
        }
      }
    }
  }
}
