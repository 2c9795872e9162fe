// What the two persistent stores share: little-endian words, IEEE single
// precision by bit pattern, the checksum's bytes and writing a record to flash.
module Records {
  import opened Octets
  import opened NorFlash
  import opened Crc32

  // ---- Words ------------------------------------------------------------------------

  newtype Word = x: int | 0 <= x < 0x1_0000_0000

  function WordBytes(w: Word): (s: seq<Byte>)
    ensures |s| == 4
  {
    [(w % 256) as Byte, (w / 0x100 % 256) as Byte, (w / 0x1_0000 % 256) as Byte, (w / 0x100_0000) as Byte]
  }

  function WordAt(f: seq<Byte>, offset: nat): (w: Word)
    requires offset + 4 <= |f|
  {
    (f[offset] as int + 0x100 * f[offset + 1] as int
     + 0x1_0000 * f[offset + 2] as int + 0x100_0000 * f[offset + 3] as int) as Word
  }

  lemma WordRoundTrip(w: Word)
    ensures WordAt(WordBytes(w), 0) == w
  {
    var v := w as int;
    assert v / 0x100 / 0x100 == v / 0x1_0000 && v / 0x1_0000 / 0x100 == v / 0x100_0000;
  }

  function Words(ws: seq<Word>): (s: seq<Byte>)
    ensures |s| == 4 * |ws|
  {
    if ws == [] then [] else Words(ws[..|ws| - 1]) + WordBytes(ws[|ws| - 1])
  }

  lemma {:induction false} WordsAt(ws: seq<Word>, i: nat)
    requires i < |ws|
    ensures WordAt(Words(ws), 4 * i) == ws[i]
  {
    hide WordBytes;
    var n := |ws| - 1;
    if i < n {
      WordsAt(ws[..n], i);
      assert Words(ws[..n]) == Words(ws)[..4 * n];
      WordInside(Words(ws), 0, 4 * n, 4 * i);
    } else {
      WordRoundTrip(ws[n]);
      assert Words(ws)[4 * n..4 * n + 4] == WordBytes(ws[n]);
      WordInside(Words(ws), 4 * n, 4, 0);
    }
  }

  // A word does not depend on what stands around it.
  lemma WordInside(f: seq<Byte>, start: nat, n: nat, offset: nat)
    requires start + n <= |f| && offset + 4 <= n
    ensures WordAt(f[start..start + n], offset) == WordAt(f, start + offset)
  {
  }

  // ---- Single-precision numbers, by bit pattern ----------------------------------------

  const F32_ONE: Word := 0x3F80_0000
  const F32_MINUS_ONE: Word := 0xBF80_0000
  const F32_QUARTER: Word := 0x3E80_0000

  predicate IsNan(x: Word)
  {
    x % 0x8000_0000 > 0x7F80_0000
  }

  predicate SignBit(x: Word)
  {
    x >= 0x8000_0000
  }

  // `a == b`
  predicate FloatEqual(a: Word, b: Word)
  {
    !IsNan(a) && !IsNan(b) && (a == b || (a % 0x8000_0000 == 0 && b % 0x8000_0000 == 0))
  }

  // `x >= 0`
  predicate NotNegative(x: Word)
  {
    !IsNan(x) && (!SignBit(x) || x == 0x8000_0000)
  }

  // `x > 0`
  predicate IsPositive(x: Word)
  {
    !IsNan(x) && !SignBit(x) && x != 0
  }

  // `x <= limit`, for a limit above zero
  predicate AtMost(x: Word, limit: Word)
  {
    !IsNan(x) && (SignBit(x) || x <= limit)
  }

  // ---- The checksum's bytes ----------------------------------------------------------------

  function Number(bits: seq<bool>): (n: nat)
    ensures n < Pow2(|bits|)
  {
    if bits == [] then 0 else (if bits[0] then 1 else 0) + 2 * Number(bits[1..])
  }

  lemma {:induction false} NumberBits(bits: seq<bool>)
    ensures LowBits(Number(bits), |bits|) == bits
  {
    if bits != [] {
      NumberBits(bits[1..]);
      assert Number(bits) / 2 == Number(bits[1..]);
    }
  }

  function ByteOf(bits: seq<bool>): (b: Byte)
    requires |bits| == 8
  {
    assert Pow2(8) == 2 * Pow2(7) == 256;
    Number(bits) as Byte
  }

  function RegisterBytes(r: Register): (s: seq<Byte>)
    ensures |s| == 4
  {
    [ByteOf(r[..8]), ByteOf(r[8..16]), ByteOf(r[16..24]), ByteOf(r[24..])]
  }

  lemma ByteOfBits(bits: seq<bool>)
    requires |bits| == 8
    ensures Bits([ByteOf(bits)]) == bits
  {
    NumberBits(bits);
    OneByte(ByteOf(bits));
  }

  lemma RegisterBits(r: Register)
    ensures Bits(RegisterBytes(r)) == r
  {
    hide ByteOf, Bits;
    ByteOfBits(r[..8]);
    ByteOfBits(r[8..16]);
    ByteOfBits(r[16..24]);
    ByteOfBits(r[24..]);
    var s := RegisterBytes(r);
    assert s == ([s[0]] + [s[1]]) + ([s[2]] + [s[3]]);
    BitsConcat([s[0]] + [s[1]], [s[2]] + [s[3]]);
    BitsConcat([s[0]], [s[1]]);
    BitsConcat([s[2]], [s[3]]);
    assert r == (r[..8] + r[8..16]) + (r[16..24] + r[24..]);
  }

  lemma OneByte(b: Byte)
    ensures Bits([b]) == ByteBits(b)
  {
    assert [b][..0] == [];
  }

  // A body with its checksum behind it.
  function Seal(body: seq<Byte>): (f: seq<Byte>)
    ensures |f| == |body| + 4
  {
    body + RegisterBytes(Crc(body))
  }

  lemma SealSeals(body: seq<Byte>)
    ensures Sealed(Seal(body))
  {
    hide Crc, RegisterBytes, Bits;
    var f := Seal(body);
    assert f[..|f| - 4] == body && f[|f| - 4..] == RegisterBytes(Crc(body));
    RegisterBits(Crc(body));
  }

  method CheckSeal(f: seq<Byte>) returns (ok: bool)
    requires |f| >= 4
    ensures ok == Sealed(f)
  {
    hide Crc, Bits;
    var crc := CrcBytes(f[..|f| - 4]);
    var stored := StoredBits(f[|f| - 4..]);
    ok := stored == crc;
  }

  method StoredBits(s: seq<Byte>) returns (bits: seq<bool>)
    ensures bits == Bits(s)
  {
    hide ByteBits;
    bits := [];
    for i := 0 to |s|
      invariant bits == Bits(s[..i])
    {
      assert s[..i + 1][..i] == s[..i];
      bits := bits + ByteBits(s[i]);
    }
    assert s[..|s|] == s;
  }

  // ---- Writing a record -------------------------------------------------------------------

  // Zero bytes up to a whole double-word.
  function PadRecord(record: seq<Byte>): (s: seq<Byte>)
    ensures |s| % 8 == 0 && record <= s && |record| <= |s| < |record| + 8
  {
    record + seq<Byte>((8 - |record| % 8) % 8, _ => 0)
  }

  // Erases `pages` pages from `page` on.
  method ErasePages(flash: Flash, page: nat, pages: nat) returns (ok: bool)
    requires flash.Valid() && page + pages <= PAGES
    modifies flash, flash.cells
    ensures flash.Valid() && (flash.healthy ==> ok)
    ensures forall i :: 0 <= i < FLASH_SIZE && !(page * PAGE_SIZE <= i < (page + pages) * PAGE_SIZE) ==>
      flash.cells[i] == old(flash.cells[i])
    ensures ok ==> forall i :: page * PAGE_SIZE <= i < (page + pages) * PAGE_SIZE ==> flash.cells[i] == 0xFF
  {
    for n := 0 to pages
      invariant flash.Valid()
      invariant forall i :: 0 <= i < FLASH_SIZE && !(page * PAGE_SIZE <= i < (page + n) * PAGE_SIZE) ==>
        flash.cells[i] == old(flash.cells[i])
      invariant forall i :: page * PAGE_SIZE <= i < (page + n) * PAGE_SIZE ==> flash.cells[i] == 0xFF
    {
      var err := flash.EraseSector(page + n);
      PageCells(page + n);
      if err != 0 {
        return false;
      }
    }
    ok := true;
  }

  lemma PageCells(page: nat)
    ensures forall i: nat :: i / PAGE_SIZE == page <==> page * PAGE_SIZE <= i < (page + 1) * PAGE_SIZE
  {
  }

  // Programs the padded record double-word by double-word into erased flash.
  method ProgramRecord(flash: Flash, start: nat, record: seq<Byte>) returns (ok: bool)
    requires flash.Valid() && start % 8 == 0 && start + |record| + 8 <= FLASH_SIZE
    requires forall i :: start <= i < start + |PadRecord(record)| ==> flash.cells[i] == 0xFF
    modifies flash, flash.cells
    ensures flash.Valid() && (flash.healthy ==> ok)
    ensures forall i :: 0 <= i < FLASH_SIZE && !(start <= i < start + |PadRecord(record)|) ==>
      flash.cells[i] == old(flash.cells[i])
    ensures ok ==> flash.cells[start..start + |record|] == record
  {
    var buffer := PadRecord(record);
    hide PadRecord;
    var offset := 0;
    while offset < |buffer|
      invariant flash.Valid() && offset % 8 == 0 && offset <= |buffer|
      invariant forall i :: 0 <= i < FLASH_SIZE && !(start <= i < start + offset) ==> flash.cells[i] == old(flash.cells[i])
      invariant flash.cells[start..start + offset] == buffer[..offset]
    {
      var d := (start + offset) / 8;
      assert 8 * d == start + offset;
      ghost var before := flash.cells[start..start + offset];
      ghost var word := buffer[offset..offset + 8];
      assert buffer[..offset + 8] == buffer[..offset] + word;
      var err := flash.ProgramDword(d, buffer[offset..offset + 8]);
      if err != 0 {
        return false;
      }
      assert flash.cells[start..start + offset] == before;
      assert flash.cells[start..start + offset + 8] == before + flash.cells[8 * d..8 * d + 8];
      offset := offset + 8;
    }
    assert flash.cells[start..start + |record|] == flash.cells[start..start + offset][..|record|];
    ok := true;
  }
}
