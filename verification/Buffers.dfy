// The bootloader's fixed 256-byte buffers.
module Buffers {
  import opened Octets
  import opened Codec

  const CAPACITY: nat := 256

  class Buffer {
    const data: array<Byte>
    var pos: nat

    ghost predicate Valid()
      reads this
    {
      data.Length == CAPACITY && pos <= CAPACITY
    }

    ghost function View(): (s: seq<Byte>)
      requires Valid()
      reads this, data
    {
      data[..pos]
    }

    constructor ()
      ensures Valid() && View() == [] && fresh(data)
    {
      data := new Byte[CAPACITY];
      pos := 0;
    }

    method Clear()
      requires Valid()
      modifies this
      ensures Valid() && View() == []
    {
      pos := 0;
    }

    // A write stream over the free space: a write that does not fit is dropped.
    method Write(bytes: seq<Byte>)
      requires Valid()
      modifies this, data
      ensures Valid() && View() == Fitted(old(View()), bytes)
    {
      if pos + |bytes| <= CAPACITY {
        forall i | 0 <= i < |bytes| { data[pos + i] := bytes[i]; }
        pos := pos + |bytes|;
      }
    }

    // Moves the bytes after the first `n` to the front.
    method Consume(n: nat)
      requires Valid() && n <= pos
      modifies this, data
      ensures Valid() && View() == old(View())[n..]
    {
      forall i | 0 <= i < CAPACITY - n { data[i] := data[i + n]; }
      pos := pos - n;
    }

    // Writes the value byte by byte while there is room.
    method WriteVaruint(value: nat)
      requires Valid() && value < TWO32
      modifies this, data
      ensures Valid()
      ensures old(pos) + |EncodeVaruint(value)| <= CAPACITY ==> View() == old(View()) + EncodeVaruint(value)
      ensures old(View()) <= View()
    {
      var v, more := value, true;
      ghost var done: seq<Byte> := [];
      while more
        invariant Valid() && View() == old(View()) + done
        invariant EncodeVaruint(value) == if more then done + EncodeVaruint(v) else done
        decreases if more then v + 1 else 0
      {
        if pos == CAPACITY {
          return;
        }
        var thisByte: Byte := (v % 128) as Byte;
        more := v / 128 != 0;
        if more {
          thisByte := thisByte + 128;
        }
        assert EncodeVaruint(v) == if more then [thisByte] + EncodeVaruint(v / 128) else [thisByte];
        v := v / 128;
        Write([thisByte]);
        done := done + [thisByte];
      }
    }
  }

  function Fitted(s: seq<Byte>, bytes: seq<Byte>): (r: seq<Byte>)
  {
    if |s| + |bytes| <= CAPACITY then s + bytes else s
  }
}
