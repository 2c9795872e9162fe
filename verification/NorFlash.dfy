// The STM32G474 program flash as the bootloader sees it: 512 KiB of NOR cells,
// erased one 2 KiB page at a time and programmed one 64-bit double-word at a time.
module NorFlash {
  import opened Octets

  const FLASH_START: nat := 0x0800_0000
  const APP_START: nat := 0x0801_0000
  const FLASH_END: nat := 0x0808_0000
  const FLASH_SIZE: nat := 0x8_0000
  const PAGE_SIZE: nat := 2048
  const PAGES: nat := 256
  // FLASH_SR_PROGERR: a double-word that is not all ones was programmed.
  const PROG_ERROR: nat := 8

  datatype FlashOp = EraseOp(page: nat) | ProgramOp(dword: nat, blank: bool)

  // The eight cells of double-word `dword` are all ones.
  ghost predicate Blank(cells: seq<Byte>, dword: nat)
    requires 8 * dword + 8 <= |cells|
  {
    forall i :: 8 * dword <= i < 8 * dword + 8 ==> cells[i] == 0xFF
  }

  class Flash {
    const cells: array<Byte>
    // On a healthy part no operation fails while the supply holds.
    const healthy: bool
    // Every erase and program operation the hardware was asked for, in order.
    var ops: seq<FlashOp>

    ghost predicate Valid()
      reads this
    {
      cells.Length == FLASH_SIZE
    }

    constructor (healthy: bool)
      ensures Valid() && fresh(cells) && ops == [] && this.healthy == healthy
    {
      this.healthy := healthy;
      cells := new Byte[FLASH_SIZE];
      ops := [];
    }

    // The status register after an operation: 0, an error bit or a timeout.
    method Wait() returns (err: nat)
      ensures healthy ==> err == 0
    {
      err := 0;
      if !healthy {
        err := *;
      }
    }

    // Erases a page. A failed or interrupted erase leaves the page arbitrary.
    method EraseSector(page: nat) returns (err: nat)
      requires Valid() && page < PAGES
      modifies this, cells
      ensures Valid() && ops == old(ops) + [EraseOp(page)]
      ensures forall i :: 0 <= i < FLASH_SIZE && i / PAGE_SIZE != page ==> cells[i] == old(cells[i])
      ensures healthy ==> err == 0
      ensures err == 0 ==> forall i :: 0 <= i < FLASH_SIZE && i / PAGE_SIZE == page ==> cells[i] == 0xFF
    {
      ops := ops + [EraseOp(page)];
      err := Wait();
      var torn := new Byte[PAGE_SIZE];
      var failed := err != 0;
      forall i | page * PAGE_SIZE <= i < page * PAGE_SIZE + PAGE_SIZE {
        cells[i] := if failed then torn[i - page * PAGE_SIZE] else 0xFF;
      }
    }

    // Programs a double-word. Hardware refuses one that is not all ones; a
    // failed or interrupted operation leaves its eight cells arbitrary.
    method ProgramDword(dword: nat, word: seq<Byte>) returns (err: nat)
      requires Valid() && 8 * dword < FLASH_SIZE && |word| == 8
      modifies this, cells
      ensures Valid() && ops == old(ops) + [ProgramOp(dword, old(Blank(cells[..], dword)))]
      ensures forall i :: 0 <= i < FLASH_SIZE && i / 8 != dword ==> cells[i] == old(cells[i])
      ensures healthy && old(Blank(cells[..], dword)) ==> err == 0
      ensures err == 0 ==> old(Blank(cells[..], dword)) && cells[8 * dword..8 * dword + 8] == word
    {
      var blank := true;
      for k := 0 to 8
        invariant blank <==> forall i :: 8 * dword <= i < 8 * dword + k ==> cells[i] == 0xFF
      {
        blank := blank && cells[8 * dword + k] == 0xFF;
      }
      ops := ops + [ProgramOp(dword, blank)];
      if !blank {
        return PROG_ERROR;
      }
      err := Wait();
      var torn := new Byte[8];
      var failed := err != 0;
      forall i | 8 * dword <= i < 8 * dword + 8 {
        cells[i] := if failed then torn[i - 8 * dword] else word[i - 8 * dword];
      }
    }

    // The supply fails while a page is being erased.
    method TearErase(page: nat)
      requires Valid() && page < PAGES
      modifies this, cells
      ensures Valid() && ops == old(ops) + [EraseOp(page)]
      ensures forall i :: 0 <= i < FLASH_SIZE && i / PAGE_SIZE != page ==> cells[i] == old(cells[i])
    {
      ops := ops + [EraseOp(page)];
      var torn := new Byte[PAGE_SIZE];
      forall i | page * PAGE_SIZE <= i < page * PAGE_SIZE + PAGE_SIZE {
        cells[i] := torn[i - page * PAGE_SIZE];
      }
    }

    // The supply fails while a double-word is being programmed.
    method TearProgram(dword: nat)
      requires Valid() && 8 * dword < FLASH_SIZE
      modifies this, cells
      ensures Valid() && ops == old(ops) + [ProgramOp(dword, old(Blank(cells[..], dword)))]
      ensures forall i :: 0 <= i < FLASH_SIZE && i / 8 != dword ==> cells[i] == old(cells[i])
    {
      var blank := forall i :: 8 * dword <= i < 8 * dword + 8 ==> cells[i] == 0xFF;
      ops := ops + [ProgramOp(dword, blank)];
      if blank {
        var torn := new Byte[8];
        forall i | 8 * dword <= i < 8 * dword + 8 {
          cells[i] := torn[i - 8 * dword];
        }
      }
    }
  }
}
