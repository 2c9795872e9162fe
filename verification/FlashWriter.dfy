// Buffered flash programming: bytes gather in a 64-bit shadow of one
// double-word, sectors are erased once per session, on first use.
module FlashWriter {
  import opened Octets
  import opened NorFlash

  const ERASED: Byte := 0xFF

  // One programmed byte: its offset into flash and its value.
  datatype Write = Write(offset: nat, value: Byte)

  function EmptyWord(): (w: seq<Byte>)
  {
    seq<Byte>(8, k => ERASED)
  }

  const ALL_LANES: set<int> := {0, 1, 2, 3, 4, 5, 6, 7}

  // ---- What a session is meant to leave in flash --------------------------

  function ErasePage(img: seq<Byte>, page: nat): (r: seq<Byte>)
    ensures |r| == |img|
    ensures forall i :: 0 <= i < |img| ==> r[i] == if i / PAGE_SIZE == page then ERASED else img[i]
  {
    seq<Byte>(|img|, i requires 0 <= i < |img| => if i / PAGE_SIZE == page then ERASED else img[i])
  }

  // Storing one byte: the first store into a page since unlock erases it.
  function Store(img: seq<Byte>, touched: set<int>, w: Write): (r: seq<Byte>)
    requires w.offset < |img|
    ensures |r| == |img|
  {
    (if w.offset / PAGE_SIZE in touched then img else ErasePage(img, w.offset / PAGE_SIZE))[w.offset := w.value]
  }

  ghost predicate InApp(w: Write)
  {
    APP_START - FLASH_START <= w.offset < FLASH_SIZE
  }

  ghost predicate AllInApp(s: seq<Write>)
  {
    forall i :: 0 <= i < |s| ==> InApp(s[i])
  }

  function PagesOf(s: seq<Write>): (r: set<int>)
  {
    set i | 0 <= i < |s| :: s[i].offset / PAGE_SIZE
  }

  // ---- Streams that never return to a flushed double-word -----------------

  // Which double-word is open, which of its lanes are filled, and which
  // double-words were flushed since unlock.
  datatype Cursor = Cursor(open: int, filled: set<int>, flushed: set<int>)

  const FRESH: Cursor := Cursor(-1, {}, {})

  // A write to another double-word flushes the open one.
  ghost function Left(c: Cursor, dword: nat): (r: Cursor)
  {
    if c.open >= 0 && c.open != dword then Cursor(-1, {}, c.flushed + {c.open}) else c
  }

  // A double-word is also flushed once all of its lanes are filled.
  ghost function Advance(c: Cursor, offset: nat): (r: Cursor)
  {
    var d := offset / 8;
    var left := Left(c, d);
    var filled := (if c.open == d then c.filled else {}) + {offset % 8};
    if filled == ALL_LANES then Cursor(-1, {}, left.flushed + {d})
    else Cursor(d, filled, left.flushed)
  }

  // The first `n` lanes of a double-word.
  function Lanes(n: nat): (r: set<int>)
    ensures forall k :: k in r <==> 0 <= k < n
  {
    if n == 0 then {} else Lanes(n - 1) + {n - 1}
  }

  // Writing on from an aligned start fills the lanes in order.
  ghost predicate InStep(c: Cursor, offset: nat)
  {
    c.filled == Lanes(offset % 8) && c.open == if offset % 8 == 0 then -1 else offset / 8
  }

  lemma AdvanceInStep(c: Cursor, offset: nat)
    requires InStep(c, offset)
    ensures InStep(Advance(c, offset), offset + 1)
  {
    var m := offset % 8;
    assert Lanes(m) + {m} == Lanes(m + 1);
    if m == 7 {
      assert Lanes(8) == ALL_LANES;
    } else {
      assert 7 !in Lanes(m + 1);
      assert (offset + 1) % 8 == m + 1 && (offset + 1) / 8 == offset / 8;
    }
  }

  // Everything before `offset` has been written in order, and nothing else.
  ghost predicate AheadOf(c: Cursor, offset: nat)
  {
    InStep(c, offset) && forall d :: d in c.flushed ==> 8 * d + 8 <= offset
  }

  lemma AdvanceAhead(c: Cursor, offset: nat)
    requires AheadOf(c, offset)
    ensures AheadOf(Advance(c, offset), offset + 1) && offset / 8 !in c.flushed
  {
    AdvanceInStep(c, offset);
  }

  // The promise a stream makes, starting from an unlock: the flash it leaves,
  // the pages it touches and where its cursor stands.
  datatype Promise = Promise(image: seq<Byte>, touched: set<int>, cursor: Cursor)

  ghost function Next(p: Promise, w: Write): (r: Promise)
    requires w.offset < |p.image|
    ensures |r.image| == |p.image|
  {
    Promise(Store(p.image, p.touched, w), p.touched + {w.offset / PAGE_SIZE}, Advance(p.cursor, w.offset))
  }

  ghost function NextAll(p: Promise, s: seq<Write>): (r: Promise)
    requires forall i :: 0 <= i < |s| ==> s[i].offset < |p.image|
    ensures |r.image| == |p.image|
  {
    if s == [] then p else Next(NextAll(p, s[..|s| - 1]), s[|s| - 1])
  }

  ghost function After(cells: seq<Byte>, s: seq<Write>): (r: Promise)
    requires forall i :: 0 <= i < |s| ==> s[i].offset < |cells|
    ensures |r.image| == |cells|
  {
    NextAll(Promise(cells, {}, FRESH), s)
  }

  ghost predicate NeverReturns(cells: seq<Byte>, s: seq<Write>)
    requires forall i :: 0 <= i < |s| ==> s[i].offset < |cells|
  {
    forall i :: 0 <= i < |s| ==> s[i].offset / 8 !in After(cells, s[..i]).cursor.flushed
  }

  // ---- The state of a session ----------------------------------------------

  // Flash, the writer's RAM and the hardware operations so far, of which those
  // from `mark` on belong to the current session.
  datatype Session = Session(cells: seq<Byte>, erased: seq<bool>, open: int, shadow: seq<Byte>,
                             filled: set<int>, flushed: set<int>, ops: seq<FlashOp>, mark: nat, locked: bool, healthy: bool)
  {
    ghost predicate Ok() {
      && mark <= |ops|
      && |cells| == FLASH_SIZE && |erased| == PAGES && |shadow| == 8 && filled <= ALL_LANES
      && -1 <= open < FLASH_SIZE / 8
      && (open == -1 <==> filled == {})
      && (forall k :: 0 <= k < 8 && k !in filled ==> shadow[k] == ERASED)
    }

    // Flash as it will read once the pending shadow word has been flushed.
    ghost function Image(): (r: seq<Byte>)
      requires Ok()
      ensures |r| == FLASH_SIZE
    {
      seq<Byte>(FLASH_SIZE, i requires 0 <= i < FLASH_SIZE =>
        if i / 8 == open && i % 8 in filled then shadow[i % 8]
        else if open >= 0 && !erased[open / 256] && i / PAGE_SIZE == open / 256 then ERASED
        else cells[i])
    }

    // Pages the session has erased, or will erase when the shadow is flushed.
    ghost function Touched(): (r: set<int>)
      requires Ok()
    {
      (set p | 0 <= p < PAGES && erased[p]) + (if open >= 0 then {open / 256} else {})
    }

    ghost function Position(): (c: Cursor) {
      Cursor(open, filled, flushed)
    }

    // The session has not failed: every program operation hit an all-ones
    // double-word, and exactly the pages marked erased were erased, each once.
    ghost predicate Clean()
      requires Ok()
    {
      && (forall i :: mark <= i < |ops| && ops[i].ProgramOp? ==> ops[i].blank)
      && (forall p: nat :: p < PAGES ==> multiset(ops[mark..])[EraseOp(p)] == if erased[p] then 1 else 0)
    }

    // Flushing the shadow needs a page still to be erased, an all-ones
    // double-word, or one that already reads the same.
    ghost predicate Flushable()
      requires Ok()
    {
      open >= 0 ==> !erased[open / 256] || Blank(cells, open) || cells[8 * open..8 * open + 8] == shadow
    }

    // In the erased pages, what has not been flushed is still all ones, and
    // the double-word being gathered has not been flushed.
    ghost predicate Ready()
      requires Ok()
    {
      && (open >= 0 ==> open !in flushed)
      && forall d: nat :: d < FLASH_SIZE / 8 && erased[d / 256] && d !in flushed ==> Blank(cells, d)
    }
  }

  // Flushing is invisible: `t` promises the same final flash as `s` and is
  // still clean, or ready, if `s` was.
  ghost predicate Kept(s: Session, t: Session)
    requires s.Ok() && t.Ok()
  {
    && s.Image() == t.Image() && s.Touched() == t.Touched()
    && (s.Clean() ==> t.Clean())
    && (s.Ready() ==> t.Ready())
  }

  lemma KeptTwice(s: Session, t: Session, u: Session)
    requires s.Ok() && t.Ok() && u.Ok()
    ensures Kept(s, s)
    ensures Kept(s, t) && Kept(t, u) ==> Kept(s, u)
  {
    hide Session.Clean, Session.Ready, Session.Image, Session.Touched;
  }

  lemma KeptReady(s: Session, t: Session)
    requires s.Ok() && t.Ok() && Kept(s, t)
    ensures s.Ready() ==> t.Ready()
  {
  }

  lemma ReadyFlushes(s: Session)
    requires s.Ok()
    ensures s.Ready() ==> s.Flushable()
  {
  }

  ghost function Erased(s: Session): (t: Session)
    requires s.Ok() && s.open >= 0
    ensures t.Ok()
  {
    var p := s.open / 256;
    s.(cells := ErasePage(s.cells, p), erased := s.erased[p := true], ops := s.ops + [EraseOp(p)])
  }

  // The first flush into a page erases it; the pending image already said so.
  lemma EraseKeepsClean(s: Session)
    requires s.Ok() && s.open >= 0 && !s.erased[s.open / 256]
    ensures Kept(s, Erased(s))
  {
    var p := s.open / 256;
    assert Erased(s).ops[s.mark..] == s.ops[s.mark..] + [EraseOp(p)];
    forall q: nat
      ensures multiset(s.ops[s.mark..] + [EraseOp(p)])[EraseOp(q)] ==
        multiset(s.ops[s.mark..])[EraseOp(q)] + if p == q then 1 else 0
    {
    }
  }

  // Flushing the shadow of `s` gives `t`: it either programmed an all-ones
  // double-word or found flash already reading the same.
  ghost predicate Flushed(s: Session, t: Session)
    requires s.Ok() && t.Ok()
  {
    && s.open >= 0 && s.erased[s.open / 256]
    && t.open == -1 && t.erased == s.erased && t.flushed == s.flushed + {s.open} && t.mark == s.mark
    && (forall i :: 0 <= i < FLASH_SIZE && i / 8 != s.open ==> t.cells[i] == s.cells[i])
    && t.cells[8 * s.open..8 * s.open + 8] == s.shadow
    && ((t.ops == s.ops && t.cells == s.cells)
        || (t.ops == s.ops + [ProgramOp(s.open, true)] && Blank(s.cells, s.open)))
  }

  // Unfilled lanes of the shadow are ones, so either way flash then reads
  // exactly as the image did.
  lemma FlushKeepsImage(s: Session, t: Session)
    requires s.Ok() && t.Ok() && Flushed(s, t)
    ensures s.Image() == t.Image() == t.cells
  {
    forall i | 0 <= i < FLASH_SIZE
      ensures t.cells[i] == s.Image()[i]
    {
      if i / 8 == s.open {
        assert t.cells[i] == t.cells[8 * s.open..8 * s.open + 8][i % 8];
      }
    }
  }

  lemma FlushKeepsTrace(s: Session, t: Session)
    requires s.Ok() && t.Ok() && Flushed(s, t) && s.Clean()
    ensures t.Clean()
  {
    if t.ops != s.ops {
      assert t.ops[t.mark..] == s.ops[s.mark..] + [ProgramOp(s.open, true)];
      forall q: nat
        ensures multiset(s.ops[s.mark..] + [ProgramOp(s.open, true)])[EraseOp(q)] == multiset(s.ops[s.mark..])[EraseOp(q)]
      {
      }
    }
  }

  lemma FlushKeepsReady(s: Session, t: Session)
    requires s.Ok() && t.Ok() && Flushed(s, t) && s.Ready()
    ensures t.Ready()
  {
    forall d: nat | d < FLASH_SIZE / 8 && t.erased[d / 256] && d !in t.flushed
      ensures Blank(t.cells, d)
    {
      assert Blank(s.cells, d);
      assert d != s.open;
    }
  }

  lemma FlushKept(s: Session, t: Session)
    requires s.Ok() && t.Ok() && Flushed(s, t)
    ensures Kept(s, t)
  {
    FlushKeepsImage(s, t);
    if s.Clean() {
      FlushKeepsTrace(s, t);
    }
    if s.Ready() {
      FlushKeepsReady(s, t);
    }
  }

  ghost function Gathered(s: Session, w: Write): (t: Session)
    requires s.Ok() && InApp(w)
    ensures t.Ok()
  {
    assert w.offset % 8 in s.filled + {w.offset % 8};
    s.(open := w.offset / 8, shadow := s.shadow[w.offset % 8 := w.value], filled := s.filled + {w.offset % 8})
  }

  // Gathering a byte in the shadow is, in the image, storing it.
  lemma GatherKeepsClean(s: Session, w: Write)
    requires s.Ok() && InApp(w) && (s.open == -1 || s.open == w.offset / 8)
    ensures Gathered(s, w).Image() == Store(s.Image(), s.Touched(), w)
    ensures Gathered(s, w).Touched() == s.Touched() + {w.offset / PAGE_SIZE}
    ensures s.Clean() ==> Gathered(s, w).Clean()
    ensures s.Ready() && w.offset / 8 !in s.flushed ==> Gathered(s, w).Ready()
  {
    var t := Gathered(s, w);
    assert t.open / 256 == w.offset / PAGE_SIZE;
    assert w.offset % 8 in t.filled;
  }

  lemma GatherKeepsVector(s: Session, w: Write)
    requires s.Ok() && InApp(w)
    ensures w.offset >= 8 * VECTOR + 8 ==> KeepsVector(s, Gathered(s, w))
  {
  }

  // What one programmed byte does to a session.
  ghost predicate Stored(s: Session, t: Session, w: Write)
    requires s.Ok() && t.Ok() && InApp(w)
  {
    && t.Image() == Store(s.Image(), s.Touched(), w)
    && t.Touched() == s.Touched() + {w.offset / PAGE_SIZE}
    && t.Position() == Advance(s.Position(), w.offset)
    && (s.Clean() ==> t.Clean())
    && (s.Ready() && w.offset / 8 !in s.flushed ==> t.Ready())
  }

  // An unlocked session on a healthy part that goes on writing in order: it
  // takes every byte.
  ghost predicate Appends(s: Session, offset: nat)
    requires s.Ok()
  {
    s.healthy && !s.locked && s.Ready() && AheadOf(s.Position(), offset)
  }

  lemma ByteAppended(s: Session, t: Session, w: Write)
    requires s.Ok() && t.Ok() && InApp(w) && Stored(s, t, w) && Appends(s, w.offset)
    requires t.locked == s.locked && t.healthy == s.healthy
    ensures Appends(t, w.offset + 1)
  {
    hide Session.Clean, Session.Ready, Session.Image, Session.Touched, Advance, AheadOf, Store;
    AdvanceAhead(s.Position(), w.offset);
  }

  // Leave the open double-word, gather, and flush the word if it is complete.
  lemma ByteStored(s: Session, left: Session, t: Session, w: Write)
    requires s.Ok() && left.Ok() && t.Ok() && InApp(w)
    requires Kept(s, left) && (left.open == -1 || left.open == w.offset / 8)
    requires left.Position() == Left(s.Position(), w.offset / 8)
    requires var g := Gathered(left, w);
      if g.filled == ALL_LANES
      then Kept(g, t) && t.Position() == Cursor(-1, {}, g.flushed + {g.open})
      else t == g
    ensures Stored(s, t, w)
  {
    GatherKeepsClean(left, w);
  }

  // The two memories agree outside the listed pages.
  ghost predicate SamePages(before: seq<Byte>, after: seq<Byte>, except: set<int>)
  {
    && |before| == |after|
    && forall i :: 0 <= i < |before| && i / PAGE_SIZE !in except ==> after[i] == before[i]
  }

  // Later operations only add to the trace, and only inside the application.
  ghost predicate AppOnly(before: seq<FlashOp>, after: seq<FlashOp>)
  {
    && before <= after
    && forall j :: |before| <= j < |after| ==>
         match after[j]
         case EraseOp(p) => (APP_START - FLASH_START) / PAGE_SIZE <= p < PAGES
         case ProgramOp(d, _) => (APP_START - FLASH_START) / 8 <= d < FLASH_SIZE / 8
  }

  // Whatever happens, only the listed pages change and only the application
  // is operated on.
  ghost predicate Moved(s: Session, t: Session, pages: set<int>)
  {
    AppOnly(s.ops, t.ops) && SamePages(s.cells, t.cells, pages) && t.mark == s.mark && t.locked == s.locked
  }

  // A session working on one page leaves the others alone.
  ghost predicate StaysOn(s: Session, t: Session, page: int)
    requires s.Ok() && t.Ok()
  {
    (s.open == -1 || s.open / 256 == page) ==>
      (t.open == -1 || t.open / 256 == page) && SamePages(s.cells, t.cells, {page})
  }

  lemma StaysOnTwice(s: Session, t: Session, u: Session, page: int)
    requires s.Ok() && t.Ok() && u.Ok()
    ensures StaysOn(s, s, page)
    ensures StaysOn(s, t, page) && StaysOn(t, u, page) ==> StaysOn(s, u, page)
  {
  }

  // The double-word with the application's stack pointer and entry point.
  const VECTOR: nat := (APP_START - FLASH_START) / 8

  // Whatever happens in an erased page behind the vector leaves the vector alone.
  ghost predicate KeepsVector(s: Session, t: Session)
    requires s.Ok() && t.Ok()
  {
    s.erased[VECTOR / 256] && s.open != VECTOR ==> t.erased[VECTOR / 256] && t.open != VECTOR && VectorSame(s, t)
  }

  ghost predicate VectorSame(s: Session, t: Session)
    requires s.Ok() && t.Ok()
  {
    s.cells[8 * VECTOR..8 * VECTOR + 8] == t.cells[8 * VECTOR..8 * VECTOR + 8]
  }

  lemma KeepsVectorTwice(s: Session, t: Session, u: Session)
    requires s.Ok() && t.Ok() && u.Ok()
    ensures KeepsVector(s, s)
    ensures KeepsVector(s, t) && KeepsVector(t, u) ==> KeepsVector(s, u)
  {
  }

  // An operation on the open double-word, in an erased page or in another one.
  lemma OpKeepsVector(s: Session, t: Session)
    requires s.Ok() && t.Ok() && s.open >= 0 && Moved(s, t, {s.open / 256})
    requires t.open == -1 || t.open == s.open
    requires s.erased[VECTOR / 256] ==> t.erased[VECTOR / 256]
    requires s.erased[s.open / 256] ==> forall i :: 0 <= i < FLASH_SIZE && i / 8 != s.open ==> t.cells[i] == s.cells[i]
    ensures KeepsVector(s, t)
  {
    if s.erased[VECTOR / 256] && s.open != VECTOR {
      forall i | 8 * VECTOR <= i < 8 * VECTOR + 8
        ensures t.cells[i] == s.cells[i]
      {
        assert i / 8 == VECTOR && i / PAGE_SIZE == VECTOR / 256;
      }
    }
  }

  lemma MovedStays(s: Session, t: Session, p: int, q: int)
    requires s.Ok() && t.Ok() && q >= 0 && p == s.open / 256 && Moved(s, t, {p, q})
    requires t.open == -1 || t.open == s.open || t.open / 256 == q
    ensures StaysOn(s, t, q)
  {
  }

  lemma MovedMore(s: Session, t: Session, p: int, q: int)
    requires Moved(s, t, {p})
    ensures Moved(s, t, {p, q})
  {
  }

  lemma MovedTwice(s: Session, t: Session, u: Session, p: int, q: int)
    requires Moved(s, t, {p}) && Moved(t, u, {q})
    ensures Moved(s, u, {p, q})
  {
  }

  // ---- The writer ----------------------------------------------------------

  lemma LaneOf(address: nat)
    requires address >= FLASH_START
    ensures address % 8 == (address - FLASH_START) % 8
    ensures (address - address % 8 - FLASH_START) % 8 == 0
    ensures (address - address % 8 - FLASH_START) / 8 == (address - FLASH_START) / 8
  {
  }

  class FlashWriter {
    const flash: Flash
    const erased: array<bool>
    var locked: bool
    // Address of the double-word being gathered, or 0 when there is none.
    var shadowStart: nat
    var shadow: seq<Byte>
    var filled: set<int>
    // Double-words flushed since the last unlock, and where its trace begins.
    ghost var flushed: set<int>
    ghost var mark: nat

    ghost predicate Valid()
      reads this, flash
    {
      && flash.Valid()
      && erased.Length == PAGES
      && |shadow| == 8 && filled <= ALL_LANES
      && mark <= |flash.ops|
      && (shadowStart == 0 <==> filled == {})
      && (forall k :: 0 <= k < 8 && k !in filled ==> shadow[k] == ERASED)
      && (shadowStart != 0 ==> APP_START <= shadowStart < FLASH_END && shadowStart % 8 == 0)
    }

    ghost function Open(): (d: int)
      reads this
    {
      if shadowStart == 0 then -1 else (shadowStart - FLASH_START) / 8
    }

    ghost function View(): (s: Session)
      requires Valid()
      reads this, flash, flash.cells, erased
      ensures s.Ok()
    {
      Session(flash.cells[..], erased[..], Open(), shadow, filled, flushed, flash.ops, mark, locked, flash.healthy)
    }

    constructor (f: Flash)
      requires f.Valid()
      ensures Valid() && flash == f && locked && Open() == -1 && fresh(erased)
      ensures unchanged(f) && unchanged(f.cells)
    {
      flash := f;
      erased := new bool[PAGES](_ => false);
      locked, shadowStart, shadow, filled := true, 0, EmptyWord(), {};
      flushed, mark := {}, |f.ops|;
    }

    // RAM state after a processor reset; flash keeps its contents.
    method Restart()
      requires Valid()
      modifies this, erased
      ensures Valid() && locked && Open() == -1 && View().Touched() == {}
    {
      forall p | 0 <= p < PAGES { erased[p] := false; }
      locked, shadowStart, shadow, filled := true, 0, EmptyWord(), {};
      flushed, mark := {}, |flash.ops|;
    }

    method Unlock()
      requires Valid()
      modifies this, erased
      ensures Valid() && !locked
      ensures View().Clean() && View().Ready()
      ensures View().Position() == FRESH && View().Touched() == {}
      ensures View().Image() == flash.cells[..]
    {
      forall p | 0 <= p < PAGES { erased[p] := false; }
      shadowStart, shadow, filled := 0, EmptyWord(), {};
      flushed, mark := {}, |flash.ops|;
      locked := false;
    }

    method MaybeEraseSector(address: nat) returns (err: nat)
      requires Valid() && APP_START <= address < FLASH_END && Open() == (address - FLASH_START) / 8
      modifies erased, flash, flash.cells
      ensures Valid() && Moved(old(View()), View(), {Open() / 256})
      ensures err == 0 ==> erased[Open() / 256] && Kept(old(View()), View())
      ensures err == 0 ==> if old(erased[Open() / 256]) then View() == old(View()) else Blank(flash.cells[..], Open())
      ensures old(erased[Open() / 256]) ==> err == 0
      ensures forall p :: 0 <= p < PAGES && old(erased[p]) ==> erased[p]
      ensures flash.healthy ==> err == 0
    {
      var bank := if address < 0x0804_0000 then 1 else 2;
      var bankStart := if bank == 1 then 0x0800_0000 else 0x0804_0000;
      var sector := (address - bankStart) / 2048;
      var sectorIndex := (bank - 1) * 128 + sector;
      assert sectorIndex == Open() / 256;
      err := 0;
      if !erased[sectorIndex] {
        ghost var before := View();
        err := flash.EraseSector(sectorIndex);
        if err != 0 {
          return;
        }
        erased[sectorIndex] := true;
        assert View() == Erased(before);
        EraseKeepsClean(before);
      }
    }

    // Programs the shadow unless flash already reads the same. The hardware
    // refuses a double-word that is neither all ones nor equal to the shadow.
    method ProgramShadow() returns (err: nat)
      requires Valid() && shadowStart != 0
      modifies flash, flash.cells
      ensures Valid() && Moved(old(View()), View(), {Open() / 256})
      ensures forall i :: 0 <= i < FLASH_SIZE && i / 8 != Open() ==> flash.cells[i] == old(flash.cells[i])
      ensures err == 0 ==>
        && flash.cells[8 * Open()..8 * Open() + 8] == shadow
        && ((flash.ops == old(flash.ops) && flash.cells[..] == old(flash.cells[..]))
            || (flash.ops == old(flash.ops) + [ProgramOp(Open(), true)] && old(Blank(flash.cells[..], Open()))))
      ensures flash.healthy ==>
        (err == 0 <==> old(Blank(flash.cells[..], Open())) || old(flash.cells[8 * Open()..8 * Open() + 8]) == shadow)
    {
      var dword := (shadowStart - FLASH_START) / 8;
      err := 0;
      if flash.cells[8 * dword..8 * dword + 8] != shadow {
        err := flash.ProgramDword(dword, shadow);
      }
      assert forall i: nat :: i / 8 == dword ==> i / PAGE_SIZE == dword / 256;
    }

    method FlushWord() returns (err: nat)
      requires Valid() && shadowStart != 0
      modifies this, erased, flash, flash.cells
      ensures Valid() && Moved(old(View()), View(), {old(Open()) / 256})
      ensures err != 0 ==> View().Position() == old(View()).Position()
      ensures err == 0 ==> View().Position() == Cursor(-1, {}, old(flushed) + {old(Open())})
      ensures err == 0 ==> Kept(old(View()), View())
      ensures flash.healthy ==> (err == 0 <==> old(View()).Flushable())
      ensures KeepsVector(old(View()), View())
    {
      hide Kept, Session.Clean, Session.Ready, Session.Image, Session.Touched, KeepsVector;
      assert (shadowStart - FLASH_START) / PAGE_SIZE == Open() / 256;
      ghost var before := View();
      err := MaybeEraseSector(shadowStart);
      if err != 0 {
        OpKeepsVector(before, View());
        return;
      }
      ghost var ready := View();
      err := ProgramShadow();
      if err != 0 {
        OpKeepsVector(before, View());
        return;
      }
      ghost var written := View();
      shadowStart, shadow, filled := 0, EmptyWord(), {};
      flushed := flushed + {ready.open};
      ghost var after := View();
      assert after == written.(open := -1, shadow := EmptyWord(), filled := {}, flushed := after.flushed);
      FlushKept(ready, after);
      KeptTwice(before, ready, after);
      OpKeepsVector(before, after);
    }

    // Gathers one byte in the shadow.
    method Gather(address: nat, value: Byte)
      requires Valid() && APP_START <= address < FLASH_END
      requires Open() == -1 || Open() == (address - FLASH_START) / 8
      modifies this
      ensures Valid() && shadowStart != 0
      ensures View() == Gathered(old(View()), Write(address - FLASH_START, value))
    {
      ghost var before, w := View(), Write(address - FLASH_START, value);
      LaneOf(address);
      shadowStart := address - address % 8;
      shadow, filled := shadow[address % 8 := value], filled + {address % 8};
      assert address % 8 in filled;
    }

    // A byte for another double-word flushes the one being gathered.
    method Leave(address: nat) returns (err: nat)
      requires Valid() && APP_START <= address < FLASH_END
      modifies this, erased, flash, flash.cells
      ensures Valid() && Moved(old(View()), View(), {old(Open()) / 256})
      ensures Open() == -1 || Open() == old(Open())
      ensures err == 0 ==> (Open() == -1 || Open() == (address - FLASH_START) / 8)
      ensures err == 0 ==> View().Position() == Left(old(View()).Position(), (address - FLASH_START) / 8)
      ensures err == 0 ==> Kept(old(View()), View())
      ensures flash.healthy && old(View()).Flushable() ==> err == 0
      ensures KeepsVector(old(View()), View())
    {
      hide Kept, KeepsVector, Session.Clean, Session.Ready, Session.Image, Session.Touched, Session.Flushable;
      LaneOf(address);
      KeptTwice(View(), View(), View());
      KeepsVectorTwice(View(), View(), View());
      var thisShadow := address - address % 8;
      err := 0;
      if thisShadow != shadowStart && shadowStart != 0 {
        err := FlushWord();
      }
    }

    // Gathers one byte and flushes the double-word once it is complete.
    method Fill(address: nat, value: Byte) returns (err: nat)
      requires Valid() && APP_START <= address < FLASH_END
      requires Open() == -1 || Open() == (address - FLASH_START) / 8
      modifies this, erased, flash, flash.cells
      ensures Valid() && Moved(old(View()), View(), {(address - FLASH_START) / PAGE_SIZE})
      ensures Open() == -1 || Open() == (address - FLASH_START) / 8
      ensures err == 0 ==> var g := Gathered(old(View()), Write(address - FLASH_START, value));
        if g.filled == ALL_LANES
        then Kept(g, View()) && View().Position() == Cursor(-1, {}, g.flushed + {g.open})
        else View() == g
      ensures flash.healthy && Gathered(old(View()), Write(address - FLASH_START, value)).Ready() ==> err == 0
      ensures address >= APP_START + 8 ==> KeepsVector(old(View()), View())
    {
      hide KeepsVector, Kept, Session.Clean, Session.Ready, Session.Image, Session.Touched;
      LaneOf(address);
      ghost var left, w := View(), Write(address - FLASH_START, value);
      Gather(address, value);
      GatherKeepsVector(left, w);
      ReadyFlushes(View());
      ghost var gathered := View();
      assert Open() / 256 == w.offset / PAGE_SIZE;
      err := 0;
      if filled == ALL_LANES {
        err := FlushWord();
        KeepsVectorTwice(left, gathered, View());
      }
    }

    method ProgramByte(address: nat, value: Byte) returns (err: nat)
      requires Valid() && APP_START <= address < FLASH_END
      modifies this, erased, flash, flash.cells
      ensures Valid()
      ensures Moved(old(View()), View(), {old(Open()) / 256, (address - FLASH_START) / PAGE_SIZE})
      ensures StaysOn(old(View()), View(), (address - FLASH_START) / PAGE_SIZE)
      ensures err == 0 ==> Stored(old(View()), View(), Write(address - FLASH_START, value))
      ensures flash.healthy && old(View()).Ready() && (address - FLASH_START) / 8 !in old(flushed) ==> err == 0
      ensures address >= APP_START + 8 ==> KeepsVector(old(View()), View())
    {
      hide Store, Advance, Stored, StaysOn, AppOnly, SamePages, KeepsVector, Kept;
      hide Session.Clean, Session.Ready, Session.Image, Session.Touched;
      LaneOf(address);
      ghost var before, w := View(), Write(address - FLASH_START, value);
      ReadyFlushes(before);
      err := Leave(address);
      MovedMore(before, View(), before.open / 256, w.offset / PAGE_SIZE);
      MovedStays(before, View(), before.open / 256, w.offset / PAGE_SIZE);
      if err != 0 {
        return;
      }
      ghost var left := View();
      KeptReady(before, left);
      GatherKeepsClean(left, w);
      err := Fill(address, value);
      KeepsVectorTwice(before, left, View());
      if err == 0 {
        ByteStored(before, left, View(), w);
      }
      MovedTwice(before, left, View(), before.open / 256, w.offset / PAGE_SIZE);
      MovedStays(before, View(), before.open / 256, w.offset / PAGE_SIZE);
    }

    // The supply fails while the open double-word is being flushed.
    method Tear()
      requires Valid()
      modifies flash, flash.cells
      ensures Valid() && Moved(old(View()), View(), {old(Open()) / 256}) && Open() == old(Open())
      ensures Open() == -1 ==> flash.cells[..] == old(flash.cells[..])
      ensures KeepsVector(old(View()), View())
    {
      hide KeepsVector;
      if shadowStart == 0 {
        KeepsVectorTwice(View(), View(), View());
        return;
      }
      ghost var before := View();
      var dword := (shadowStart - FLASH_START) / 8;
      if erased[dword / 256] {
        flash.TearProgram(dword);
        assert forall i: nat :: i / 8 == dword ==> i / PAGE_SIZE == dword / 256;
      } else {
        flash.TearErase(dword / 256);
      }
      OpKeepsVector(before, View());
    }

    method Lock() returns (err: nat)
      requires Valid()
      modifies this, erased, flash, flash.cells
      ensures Valid() && Moved(old(View()), View().(locked := old(locked)), {old(Open()) / 256})
      ensures err != 0 ==> locked == old(locked)
      ensures err == 0 ==> locked
      ensures err == 0 && !old(locked) ==>
        Open() == -1 && Kept(old(View()), View()) && flash.cells[..] == old(View()).Image()
      ensures old(locked) ==> err == 0 && View() == old(View())
      ensures old(Open()) == -1 ==> err == 0 && Open() == -1 && flash.cells[..] == old(flash.cells[..])
      ensures flash.healthy && !old(locked) ==> (err == 0 <==> old(View()).Flushable())
    {
      if locked {
        return 0;
      }
      if filled != {} {
        err := FlushWord();
        if err != 0 {
          return;
        }
      }
      locked := true;
      err := 0;
    }
  }

  // ---- Whole sessions ------------------------------------------------------

  function LastWrite(s: seq<Write>, offset: nat): (r: Option<Byte>)
    ensures r.None? <==> forall i :: 0 <= i < |s| ==> s[i].offset != offset
  {
    if s == [] then None
    else if s[|s| - 1].offset == offset then Some(s[|s| - 1].value)
    else LastWrite(s[..|s| - 1], offset)
  }

  // What a stream of stores leaves: the last byte written, ones in the rest of
  // the pages it touched, and everything else as it was.
  lemma {:induction false} AfterAt(cells: seq<Byte>, s: seq<Write>, i: nat)
    requires forall k :: 0 <= k < |s| ==> s[k].offset < |cells|
    requires i < |cells|
    ensures After(cells, s).touched == PagesOf(s)
    ensures After(cells, s).image[i] ==
      match LastWrite(s, i)
      case Some(v) => v
      case None => if i / PAGE_SIZE in PagesOf(s) then ERASED else cells[i]
  {
    if s != [] {
      var n := |s| - 1;
      assert s == s[..n] + [s[n]];
      AfterAt(cells, s[..n], i);
      assert PagesOf(s) == PagesOf(s[..n]) + {s[n].offset / PAGE_SIZE};
    }
  }

  // Returning to a flushed double-word starts from an all-ones shadow, so its
  // next flush is refused unless the double-word holds nothing but that byte.
  lemma ReturnRefused(s: Session, w: Write)
    requires s.Ok() && InApp(w) && s.open == -1
    requires s.erased[w.offset / PAGE_SIZE] && !Blank(s.cells, w.offset / 8)
    ensures Gathered(s, w).Flushable() <==>
      var d := w.offset / 8; s.cells[8 * d..8 * d + 8] == EmptyWord()[w.offset % 8 := w.value]
  {
    assert s.shadow == EmptyWord();
    assert w.offset / 8 / 256 == w.offset / PAGE_SIZE;
  }

  // The session keeps the promise.
  ghost predicate Keeps(v: Session, p: Promise)
    requires v.Ok()
  {
    v.Clean() && v.Image() == p.image && v.Touched() == p.touched && v.Position() == p.cursor
  }

  method ProgramNext(w: FlashWriter, next: Write, ghost p: Promise) returns (err: nat)
    requires w.Valid() && !w.locked && InApp(next) && |p.image| == FLASH_SIZE
    requires Keeps(w.View(), p)
    modifies w, w.erased, w.flash, w.flash.cells
    ensures w.Valid() && !w.locked
    ensures err == 0 ==> Keeps(w.View(), Next(p, next))
    ensures w.flash.healthy && old(w.View()).Ready() && next.offset / 8 !in p.cursor.flushed ==>
      err == 0 && w.View().Ready()
  {
    hide Session.Clean, Session.Ready, Session.Image, Session.Touched, Store, Advance, AppOnly, SamePages;
    err := w.ProgramByte(FLASH_START + next.offset, next.value);
  }

  // Any stream of bytes, programmed from a fresh unlock on.
  method ProgramAll(w: FlashWriter, s: seq<Write>) returns (err: nat)
    requires w.Valid() && !w.locked && AllInApp(s)
    requires Keeps(w.View(), After(w.flash.cells[..], [])) && w.View().Ready()
    modifies w, w.erased, w.flash, w.flash.cells
    ensures w.Valid() && !w.locked
    ensures err == 0 ==> Keeps(w.View(), After(old(w.flash.cells[..]), s))
    ensures w.flash.healthy && NeverReturns(old(w.flash.cells[..]), s) ==> err == 0 && w.View().Ready()
  {
    hide Keeps, Next, Session.Ready;
    ghost var cells := w.flash.cells[..];
    err := 0;
    assert s[..0] == [];
    for n := 0 to |s|
      invariant w.Valid() && !w.locked
      invariant Keeps(w.View(), After(cells, s[..n]))
      invariant w.flash.healthy && NeverReturns(cells, s) ==> w.View().Ready()
    {
      err := ProgramNext(w, s[n], After(cells, s[..n]));
      if err != 0 {
        return;
      }
      assert s[..n + 1][..n] == s[..n];
    }
    assert s[..|s|] == s;
  }

  lemma AfterNothing(cells: seq<Byte>)
    ensures After(cells, []) == Promise(cells, {}, FRESH)
  {
  }

  lemma TouchedErased(v: Session)
    requires v.Ok() && v.open == -1
    ensures forall p :: 0 <= p < PAGES ==> (v.erased[p] <==> p in v.Touched())
  {
  }

  // A session from unlock to lock. Whenever it reports success, flash holds
  // exactly the stream's result, each touched page was erased once and no
  // other, and only all-ones double-words were programmed. On a healthy part a
  // stream that never returns to a flushed double-word does succeed.
  method ProgramSession(w: FlashWriter, s: seq<Write>) returns (err: nat)
    requires w.Valid() && AllInApp(s)
    modifies w, w.erased, w.flash, w.flash.cells
    ensures w.Valid()
    ensures err == 0 ==> w.locked && w.flash.cells[..] == After(old(w.flash.cells[..]), s).image
    ensures err == 0 ==> w.View().Clean() && forall p :: 0 <= p < PAGES ==> (w.erased[p] <==> p in PagesOf(s))
    ensures w.flash.healthy && NeverReturns(old(w.flash.cells[..]), s) ==> err == 0
  {
    hide Session.Clean, Session.Ready, Session.Image, Session.Touched, Session.Flushable, NextAll, NeverReturns;
    hide PagesOf;
    w.Unlock();
    AfterNothing(w.flash.cells[..]);
    AfterAt(w.flash.cells[..], s, 0);
    err := ProgramAll(w, s);
    if err == 0 {
      ReadyFlushes(w.View());
      err := w.Lock();
      if err == 0 {
        TouchedErased(w.View());
      }
    }
  }
}
