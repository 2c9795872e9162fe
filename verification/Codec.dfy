// Variable-length integers and hexadecimal text, as the bootloader and the
// flashing host each write and read them.
module Codec {
  import opened Octets

  const TWO32: nat := 0x1_0000_0000

  // ---- Variable-length integers -------------------------------------------

  // Seven bits a byte, least significant first, top bit set on all but the last.
  function EncodeVaruint(v: nat): (r: seq<Byte>)
    ensures |r| > 0
  {
    if v < 128 then [v as Byte] else [(v % 128 + 128) as Byte] + EncodeVaruint(v / 128)
  }

  // Position of the first byte without a continuation bit.
  function Stop(s: seq<Byte>): (t: nat)
    ensures t <= |s|
    ensures t < |s| ==> s[t] < 128
    ensures forall i :: 0 <= i < t ==> s[i] >= 128
  {
    if s == [] || s[0] < 128 then 0 else 1 + Stop(s[1..])
  }

  // The number the low seven bits of the bytes spell.
  function Groups(s: seq<Byte>): nat
  {
    if s == [] then 0 else (s[0] % 128) as int + 128 * Groups(s[1..])
  }

  function Pow128(n: nat): (r: nat)
    ensures r > 0
  {
    if n == 0 then 1 else 128 * Pow128(n - 1)
  }

  lemma {:induction false} GroupsSnoc(s: seq<Byte>, b: Byte)
    ensures Groups(s + [b]) == Groups(s) + (b % 128) as int * Pow128(|s|)
    ensures Groups(s) < Pow128(|s|)
  {
    if s == [] {
      assert [] + [b] == [b];
      assert Groups([b]) == (b % 128) as int + 128 * Groups([]);
    } else {
      assert (s + [b])[1..] == s[1..] + [b];
      GroupsSnoc(s[1..], b);
      assert (b % 128) as int * (128 * Pow128(|s| - 1)) == 128 * ((b % 128) as int * Pow128(|s| - 1));
    }
  }

  // How the bootloader reads an integer: at most five bytes, truncated to 32
  // bits; five continuation bytes read as the largest value.
  function DeviceVaruint(s: seq<Byte>): (r: (Option<nat>, nat))
    ensures r.1 <= |s|
    ensures r.0.Some? ==> r.0.value < TWO32
  {
    var t := Stop(s);
    if t < 5 && t < |s| then (Some(Groups(s[..t + 1]) % TWO32), t + 1)
    else if |s| < 5 then (None, |s|)
    else (Some(TWO32 - 1), 5)
  }

  // How the host reads one: at most five bytes, never truncated.
  function HostVaruint(s: seq<Byte>): (r: (Option<nat>, nat))
    ensures r.1 <= |s|
  {
    var t := Stop(s);
    if t < 5 && t < |s| then (Some(Groups(s[..t + 1])), t + 1)
    else (None, if |s| < 5 then |s| else 5)
  }

  method ReadVaruint(s: seq<Byte>, offset: nat) returns (r: Option<nat>, next: nat)
    requires offset <= |s|
    ensures (r, next - offset) == DeviceVaruint(s[offset..]) && offset <= next <= |s|
  {
    var result, scale := 0, 1;
    ghost var tail := s[offset..];
    assert tail[..0] == [] && Groups([]) == 0;
    hide Stop, Groups;
    for i := 0 to 5
      invariant i <= |tail| && Stop(tail) >= i
      invariant scale == Pow128(i)
      invariant i < 5 ==> result == Groups(tail[..i])
    {
      if offset + i == |s| {
        return None, |s|;
      }
      var b := s[offset + i];
      ReadStep(tail, i, result);
      // `result |= (b & 0x7f) << (7 * i)` in 32-bit arithmetic
      result := (result + (b % 128) as int * scale) % TWO32;
      if b < 128 {
        return Some(result), offset + i + 1;
      }
      scale := scale * 128;
    }
    return Some(TWO32 - 1), offset + 5;
  }

  method VaruintDecode(s: seq<Byte>, offset: nat) returns (r: Option<nat>, next: nat)
    requires offset <= |s|
    ensures (r, next - offset) == HostVaruint(s[offset..]) && offset <= next <= |s|
  {
    var result, scale := 0, 1;
    ghost var tail := s[offset..];
    assert tail[..0] == [] && Groups([]) == 0;
    hide Stop, Groups;
    for i := 0 to 5
      invariant i <= |tail| && Stop(tail) >= i
      invariant scale == Pow128(i)
      invariant result == Groups(tail[..i])
    {
      if offset + i == |s| {
        return None, |s|;
      }
      ReadStep(tail, i, result);
      result := result + (s[offset + i] % 128) as int * scale;
      if s[offset + i] < 128 {
        return Some(result), offset + i + 1;
      }
      scale := scale * 128;
    }
    return None, offset + 5;
  }

  lemma ReadStep(tail: seq<Byte>, i: nat, result: nat)
    requires i < 5 && i < |tail| && Stop(tail) >= i && result == Groups(tail[..i])
    ensures result + (tail[i] % 128) as int * Pow128(i) == Groups(tail[..i + 1]) < Pow128(i + 1)
    ensures i < 4 ==> Groups(tail[..i + 1]) < TWO32
    ensures if tail[i] < 128 then Stop(tail) == i else Stop(tail) >= i + 1
  {
    GroupsSnoc(tail[..i], tail[i]);
    assert tail[..i + 1] == tail[..i] + [tail[i]];
    GroupsSnoc(tail[..i + 1], 0);
    Below32(i, result, (tail[i] % 128) as int);
  }

  lemma Below32(i: nat, low: nat, group: nat)
    requires i < 5 && low < Pow128(i) && group < 128
    ensures low + group * Pow128(i) < Pow128(i + 1)
    ensures i < 4 ==> low + group * Pow128(i) < TWO32
  {
    assert Pow128(1) == 128 && Pow128(2) == 16384 && Pow128(3) == 2097152 && Pow128(4) == 268435456;
  }

  // Every 32-bit value survives encoding and either decoding, whatever follows.
  lemma {:induction false} VaruintRoundTrip(v: nat, rest: seq<Byte>)
    requires v < TWO32
    ensures DeviceVaruint(EncodeVaruint(v) + rest) == (Some(v), |EncodeVaruint(v)|)
    ensures HostVaruint(EncodeVaruint(v) + rest) == (Some(v), |EncodeVaruint(v)|)
  {
    EncodedShape(v, rest, 5);
    assert (EncodeVaruint(v) + rest)[..|EncodeVaruint(v)|] == EncodeVaruint(v);
  }

  lemma {:induction false} EncodedShape(v: nat, rest: seq<Byte>, n: nat)
    requires n > 0 && v < Pow128(n)
    ensures |EncodeVaruint(v)| <= n
    ensures Stop(EncodeVaruint(v) + rest) == |EncodeVaruint(v)| - 1
    ensures Groups(EncodeVaruint(v)) == v
  {
    var s := EncodeVaruint(v);
    if v < 128 {
      assert Groups(s) == v + 128 * Groups([]);
    } else {
      assert n > 1 by {
        assert Pow128(1) == 128 * Pow128(0);
      }
      EncodedShape(v / 128, rest, n - 1);
      assert s[1..] == EncodeVaruint(v / 128);
      assert (s + rest)[1..] == s[1..] + rest;
    }
  }

  // The two readers agree exactly when no bit is cut off: on anything but a
  // value of 2^32 or more and five continuation bytes.
  lemma ReadersAgree(s: seq<Byte>)
    ensures DeviceVaruint(s) == HostVaruint(s) <==>
      (Stop(s) < 5 && Stop(s) < |s| && Groups(s[..Stop(s) + 1]) < TWO32) || (Stop(s) == |s| < 5)
  {
    hide Groups, Stop;
    var t := Stop(s);
    if t < 5 && t < |s| {
      var v := Groups(s[..t + 1]);
      assert v % TWO32 == v <==> v < TWO32;
      assert DeviceVaruint(s) == (Some(v % TWO32), t + 1) && HostVaruint(s) == (Some(v), t + 1);
    }
  }

  // ---- Hexadecimal ----------------------------------------------------------

  function Nibble(c: Byte): (r: Option<nat>)
    ensures r.Some? ==> r.value < 16
  {
    if '0' as int <= c as int <= '9' as int then Some(c as int - '0' as int)
    else if 'a' as int <= c as int <= 'f' as int then Some(c as int - 'a' as int + 10)
    else if 'A' as int <= c as int <= 'F' as int then Some(c as int - 'A' as int + 10)
    else None
  }

  function Pow16(n: nat): (r: nat)
    ensures r > 0
  {
    if n == 0 then 1 else 16 * Pow16(n - 1)
  }

  // The number a string of digits spells, if they are all digits.
  function HexFold(s: seq<Byte>): (r: Option<nat>)
    ensures r.Some? ==> r.value < Pow16(|s|)
  {
    if s == [] then Some(0)
    else
      match (HexFold(s[..|s| - 1]), Nibble(s[|s| - 1]))
      case (Some(high), Some(low)) => Some(high * 16 + low)
      case _ => None
  }

  function HexValue(s: seq<Byte>): (r: Option<nat>)
  {
    if 1 <= |s| <= 8 then HexFold(s) else None
  }

  lemma {:induction false} HexFoldPrefix(s: seq<Byte>, n: nat)
    requires n <= |s| && HexFold(s[..n]).None?
    ensures HexFold(s).None?
    decreases |s|
  {
    if n < |s| {
      assert s[..|s| - 1][..n] == s[..n];
      HexFoldPrefix(s[..|s| - 1], n);
    } else {
      assert s[..n] == s;
    }
  }

  method HexToI(s: seq<Byte>) returns (r: Option<nat>)
    ensures r == HexValue(s)
  {
    if |s| == 0 || |s| > 8 {
      return None;
    }
    var result := 0;
    for i := 0 to |s|
      invariant HexFold(s[..i]) == Some(result)
    {
      assert s[..i + 1][..i] == s[..i];
      var d := Nibble(s[i]);
      if d == None {
        HexFoldPrefix(s, i + 1);
        return None;
      }
      result := result * 16 + d.value;
    }
    assert s[..|s|] == s;
    return Some(result);
  }

  function Digit(v: nat): (c: Byte)
    requires v < 16
    ensures Nibble(c) == Some(v)
  {
    if v < 10 then ('0' as int + v) as Byte else ('a' as int + v - 10) as Byte
  }

  function UpperDigit(v: nat): (c: Byte)
    requires v < 16
    ensures Nibble(c) == Some(v)
  {
    if v < 10 then ('0' as int + v) as Byte else ('A' as int + v - 10) as Byte
  }

  // `n` lower-case digits of `v`, most significant first.
  function HexText(v: nat, n: nat): (s: seq<Byte>)
    ensures |s| == n
  {
    if n == 0 then [] else HexText(v / 16, n - 1) + [Digit(v % 16)]
  }

  function UpperText(v: nat, n: nat): (s: seq<Byte>)
    ensures |s| == n
  {
    if n == 0 then [] else UpperText(v / 16, n - 1) + [UpperDigit(v % 16)]
  }

  lemma {:induction false} HexRoundTrip(v: nat, n: nat)
    requires v < Pow16(n)
    ensures HexFold(HexText(v, n)) == Some(v) == HexFold(UpperText(v, n))
    ensures forall i :: 0 <= i < n ==> Nibble(HexText(v, n)[i]).Some?
  {
    if n > 0 {
      HexRoundTrip(v / 16, n - 1);
      assert HexText(v, n)[..n - 1] == HexText(v / 16, n - 1);
      assert UpperText(v, n)[..n - 1] == UpperText(v / 16, n - 1);
    }
  }

  // Two digits a byte, as the host spells a block of data.
  function HexBlock(data: seq<Byte>): (s: seq<Byte>)
    ensures |s| == 2 * |data|
  {
    if data == [] then [] else HexBlock(data[..|data| - 1]) + HexText(data[|data| - 1] as int, 2)
  }

  // Two upper-case digits a byte, as the bootloader spells what it reads.
  function UpperBlock(data: seq<Byte>): (s: seq<Byte>)
    ensures |s| == 2 * |data|
  {
    if data == [] then [] else UpperBlock(data[..|data| - 1]) + UpperText(data[|data| - 1] as int, 2)
  }

  lemma UpperBlockNext(data: seq<Byte>, b: Byte)
    ensures UpperBlock(data + [b]) == UpperBlock(data) + UpperText(b as int, 2)
    ensures UpperBlock([]) == []
  {
    assert (data + [b])[..|data|] == data;
  }

  lemma UpperBlockGrows(data: seq<Byte>, i: nat)
    requires i < |data|
    ensures UpperBlock(data[..i + 1]) == UpperBlock(data[..i]) + UpperText(data[i] as int, 2)
  {
    assert data[..i + 1] == data[..i] + [data[i]];
    UpperBlockNext(data[..i], data[i]);
  }

  // What the bootloader reads back from each pair of digits.
  lemma {:induction false} HexBlockAt(data: seq<Byte>, i: nat)
    requires i < |data|
    ensures HexValue(HexBlock(data)[2 * i..2 * i + 2]) == Some(data[i] as int)
    ensures Nibble(HexBlock(data)[2 * i]).Some? && Nibble(HexBlock(data)[2 * i + 1]).Some?
  {
    var n := |data| - 1;
    var s := HexBlock(data);
    assert s == HexBlock(data[..n]) + HexText(data[n] as int, 2);
    if i < n {
      HexBlockAt(data[..n], i);
      assert s[2 * i..2 * i + 2] == HexBlock(data[..n])[2 * i..2 * i + 2];
    } else {
      assert Pow16(2) == 16 * Pow16(1) == 256;
      HexRoundTrip(data[n] as int, 2);
      assert s[2 * i..2 * i + 2] == HexText(data[n] as int, 2);
    }
  }
}
