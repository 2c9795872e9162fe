// The persistent runtime configuration: one record layout in a page of its own.
module ConfigStore {
  import opened Octets
  import opened NorFlash
  import opened Crc32
  import opened Records

  const MAGIC: Word := 0x5843_4647
  const VERSION: Word := 1
  const BASE: nat := 0x7_E000
  const AREA: nat := 0x800
  const PAGE: nat := 252
  const RECORD: nat := 132

  // The four configuration structures, as the bytes they are stored as.
  datatype RuntimeConfig = RuntimeConfig(motor: seq<Byte>, foc: seq<Byte>, servo: seq<Byte>, encoder: seq<Byte>)
  {
    predicate Ok() {
      |motor| == 32 && |foc| == 24 && |servo| == 48 && |encoder| == 16
    }
  }

  ghost predicate Accepted(f: seq<Byte>)
  {
    |f| == AREA && WordAt(f, 0) == MAGIC && WordAt(f, 4) == VERSION && Sealed(f[..RECORD])
  }

  function Decode(f: seq<Byte>): (c: RuntimeConfig)
    requires |f| == AREA
    ensures c.Ok()
  {
    RuntimeConfig(f[8..40], f[40..64], f[64..112], f[112..128])
  }

  function Body(c: RuntimeConfig): (s: seq<Byte>)
    requires c.Ok()
    ensures |s| == 128
  {
    Words([MAGIC, VERSION]) + c.motor + c.foc + c.servo + c.encoder
  }

  lemma RoundTrip(c: RuntimeConfig, f: seq<Byte>)
    requires c.Ok() && |f| == AREA && f[..RECORD] == Seal(Body(c))
    ensures Accepted(f) && Decode(f) == c
  {
    hide Words, Crc, WordAt, Sealed;
    SealSeals(Body(c));
    var s := Body(c);
    assert f[..128] == s by {
      assert f[..RECORD][..128] == Seal(s)[..128] == s;
    }
    assert forall i, j :: 0 <= i <= j <= 128 ==> f[i..j] == f[..128][i..j];
    assert s[..8] == Words([MAGIC, VERSION]) && s[8..40] == c.motor && s[40..64] == c.foc;
    assert s[64..112] == c.servo && s[112..128] == c.encoder;
    assert f[0..8] == Words([MAGIC, VERSION]);
    WordsAt([MAGIC, VERSION], 0);
    WordsAt([MAGIC, VERSION], 1);
    WordInside(f, 0, 8, 0);
    WordInside(f, 0, 8, 4);
  }

  // No burst of up to 32 bits anywhere in the record is accepted.
  lemma CorruptionRejected(f: seq<Byte>, f': seq<Byte>, from: nat)
    requires Accepted(f) && |f'| == AREA && Burst(Bits(f[..RECORD]), Bits(f'[..RECORD]), from)
    ensures !Accepted(f')
  {
    hide Sealed, Bits;
    SealedBurst(f[..RECORD], f'[..RECORD], from);
  }

  class RuntimeConfigStore {
    const flash: Flash

    constructor (flash: Flash)
      ensures this.flash == flash
    {
      this.flash := flash;
    }

    ghost function Area(): (f: seq<Byte>)
      requires flash.Valid()
      reads flash, flash.cells
    {
      flash.cells[BASE..BASE + AREA]
    }

    // `given` is left alone unless a record is accepted.
    method Load(given: RuntimeConfig) returns (ok: bool, out: RuntimeConfig)
      requires flash.Valid()
      ensures ok <==> Accepted(Area())
      ensures out == if ok then Decode(Area()) else given
    {
      hide WordAt, Sealed;
      out := given;
      var f := flash.cells[BASE..BASE + AREA];
      if WordAt(f, 0) != MAGIC || WordAt(f, 4) != VERSION {
        return false, out;
      }
      ok := CheckSeal(f[..RECORD]);
      if ok {
        out := RuntimeConfig(f[8..40], f[40..64], f[64..112], f[112..128]);
      }
    }

    // Success means that flash holds a record that loads as what was saved, and
    // healthy flash always takes it; no other page is touched either way.
    method Save(data: RuntimeConfig) returns (ok: bool)
      requires flash.Valid() && data.Ok()
      modifies flash, flash.cells
      ensures flash.Valid() && (flash.healthy ==> ok)
      ensures forall i :: 0 <= i < FLASH_SIZE && !(BASE <= i < BASE + AREA) ==> flash.cells[i] == old(flash.cells[i])
      ensures ok ==> Accepted(Area()) && Decode(Area()) == data
    {
      hide Body, Accepted, Decode, Crc;
      var body := Body(data);
      var crc := CrcBytes(body);
      ok := ErasePages(flash, PAGE, 1);
      if !ok {
        return;
      }
      ok := ProgramRecord(flash, BASE, body + RegisterBytes(crc));
      if !ok {
        return;
      }
      assert flash.cells[BASE..BASE + AREA][..RECORD] == flash.cells[BASE..BASE + RECORD];
      RoundTrip(data, Area());
      var verify;
      ok, verify := Load(data);
    }
  }
}
