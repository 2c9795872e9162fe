// Text the flashing host writes and reads: command lines out, replies in.
module HostText {
  import opened Octets
  import opened Codec
  import opened CommandLine
  import opened CommandServer

  const FAST_WRITE_SIZE: nat := 24

  // ---- bytes.strip() and bytes.split() ----------------------------------------

  predicate IsSpace(c: Byte)
  {
    c == SPACE || 9 <= c <= 13
  }

  function LStrip(s: seq<Byte>): (r: seq<Byte>)
    ensures |r| <= |s| && (r != [] ==> !IsSpace(r[0]))
  {
    if s == [] || !IsSpace(s[0]) then s else LStrip(s[1..])
  }

  function RStrip(s: seq<Byte>): (r: seq<Byte>)
  {
    if s == [] || !IsSpace(s[|s| - 1]) then s else RStrip(s[..|s| - 1])
  }

  function Strip(s: seq<Byte>): (r: seq<Byte>)
  {
    RStrip(LStrip(s))
  }

  function WordEnd(s: seq<Byte>): (n: nat)
    ensures n <= |s| && (n < |s| ==> IsSpace(s[n]))
    ensures forall i :: 0 <= i < n ==> !IsSpace(s[i])
  {
    if s == [] || IsSpace(s[0]) then 0 else 1 + WordEnd(s[1..])
  }

  function Fields(s: seq<Byte>): (r: seq<seq<Byte>>)
    decreases |s|
  {
    var t := LStrip(s);
    if t == [] then [] else
    var n := WordEnd(t);
    [t[..n]] + Fields(t[n..])
  }

  predicate IsWord(s: seq<Byte>)
  {
    s != [] && forall i :: 0 <= i < |s| ==> !IsSpace(s[i])
  }

  lemma {:induction false} RStripKeeps(s: seq<Byte>, prefix: seq<Byte>)
    requires prefix <= s && prefix != [] && !IsSpace(prefix[|prefix| - 1])
    ensures prefix <= RStrip(s)
  {
    if IsSpace(s[|s| - 1]) {
      assert |prefix| < |s| by {
        assert s[..|prefix|] == prefix;
      }
      RStripKeeps(s[..|s| - 1], prefix);
    }
  }

  // Stripping does not hide a failure.
  lemma StripKeepsError(s: seq<Byte>)
    requires Ascii("ERR") <= s
    ensures Ascii("ERR") <= Strip(s)
  {
    RStripKeeps(s, Ascii("ERR"));
  }

  lemma StripLine(s: seq<Byte>)
    requires s != [] && !IsSpace(s[0]) && !IsSpace(s[|s| - 1])
    ensures Strip(s + Ascii("\r\n")) == s
  {
    var line := s + Ascii("\r\n");
    assert line[..|line| - 1][..|line| - 2] == s;
    assert line[..|line| - 1] == s + [CR] && (s + [CR])[..|s|] == s;
    assert RStrip(s + [CR]) == RStrip(s) == s;
  }

  lemma WordEndIs(word: seq<Byte>, rest: seq<Byte>)
    requires IsWord(word) && (rest == [] || IsSpace(rest[0]))
    ensures WordEnd(word + rest) == |word|
  {
    hide WordEnd;
    var s := word + rest;
    assert forall i :: 0 <= i < |word| ==> s[i] == word[i];
    assert rest != [] ==> s[|word|] == rest[0];
  }

  lemma FirstField(word: seq<Byte>, rest: seq<Byte>)
    requires IsWord(word) && (rest == [] || IsSpace(rest[0]))
    ensures Fields(word + rest) == [word] + Fields(rest)
  {
    WordEndIs(word, rest);
    assert (word + rest)[..|word|] == word && (word + rest)[|word|..] == rest;
  }

  lemma SpaceSkipped(rest: seq<Byte>)
    ensures Fields([SPACE] + rest) == Fields(rest)
  {
    assert ([SPACE] + rest)[1..] == rest;
  }

  lemma TwoFields(first: seq<Byte>, second: seq<Byte>)
    requires IsWord(first) && IsWord(second)
    ensures Fields(first + [SPACE] + second) == [first, second]
  {
    assert first + [SPACE] + second == first + ([SPACE] + second);
    FirstField(first, [SPACE] + second);
    SpaceSkipped(second);
    OneField(second);
  }

  lemma OneField(word: seq<Byte>)
    requires IsWord(word)
    ensures Fields(word) == [word]
  {
    FirstField(word, []);
    assert word + [] == word;
  }

  // ---- Hexadecimal text ---------------------------------------------------------

  predicate IsHex(s: seq<Byte>)
  {
    forall i :: 0 <= i < |s| ==> Nibble(s[i]).Some?
  }

  lemma HexIsText(s: seq<Byte>)
    requires IsHex(s)
    ensures forall i :: 0 <= i < |s| ==> !IsSpace(s[i]) && !IsDelimiter(s[i])
  {
    forall i | 0 <= i < |s|
      ensures !IsSpace(s[i]) && !IsDelimiter(s[i])
    {
      assert Nibble(s[i]).Some?;
    }
  }

  lemma {:induction false} TextIsHex(v: nat, n: nat)
    ensures IsHex(HexText(v, n)) && IsHex(UpperText(v, n))
  {
    if n > 0 {
      TextIsHex(v / 16, n - 1);
    }
  }

  lemma {:induction false} BlockIsHex(data: seq<Byte>)
    ensures IsHex(HexBlock(data)) && IsHex(UpperBlock(data))
  {
    hide HexText, UpperText;
    if data != [] {
      BlockIsHex(data[..|data| - 1]);
      TextIsHex(data[|data| - 1] as int, 2);
    }
  }

  lemma AddressText(address: nat)
    requires address < TWO32
    ensures HexValue(HexText(address, 8)) == Some(address) == HexValue(UpperText(address, 8))
  {
    assert Pow16(8) == TWO32 by {
      assert Pow16(2) == 256 && Pow16(4) == 256 * Pow16(2) && Pow16(6) == 256 * Pow16(4) && Pow16(8) == 256 * Pow16(6);
    }
    hide Pow16, HexFold, HexText, UpperText;
    HexRoundTrip(address, 8);
  }

  lemma {:induction false} UpperBlockSpells(data: seq<Byte>)
    ensures SpellsBlock(UpperBlock(data), data)
  {
    hide UpperText, UpperBlock;
    if data == [] {
    } else {
      var n := |data| - 1;
      var b := data[n];
      UpperBlockSpells(data[..n]);
      assert data == data[..n] + [b];
      UpperBlockNext(data[..n], b);
      assert Pow16(2) == 16 * Pow16(1) == 256;
      HexRoundTrip(b as int, 2);
      var text := UpperBlock(data);
      assert text[2 * n..2 * n + 2] == UpperText(b as int, 2) && text[..2 * n] == UpperBlock(data[..n]);
      SpellsNext(text, data[..n], b);
      assert text[..2 * n + 2] == text;
    }
  }

  lemma HexBlockSpells(data: seq<Byte>)
    ensures SpellsBlock(HexBlock(data), data)
  {
    forall i | 0 <= i < |data|
      ensures HexValue(HexBlock(data)[2 * i..2 * i + 2]) == Some(data[i] as int)
    {
      HexBlockAt(data, i);
    }
  }

  // A text spells at most one block.
  lemma SpellsOne(text: seq<Byte>, a: seq<Byte>, b: seq<Byte>)
    requires SpellsBlock(text, a) && SpellsBlock(text, b)
    ensures a == b
  {
    assert forall i :: 0 <= i < |a| ==> Some(a[i] as int) == HexValue(text[2 * i..2 * i + 2]) == Some(b[i] as int);
  }

  // `int(text, 16)` of digits, however many.
  method ParseInt(text: seq<Byte>) returns (r: Option<nat>)
    ensures r == if text == [] then None else HexFold(text)
  {
    if text == [] {
      return None;
    }
    var result := 0;
    for i := 0 to |text|
      invariant HexFold(text[..i]) == Some(result)
    {
      assert text[..i + 1][..i] == text[..i];
      var d := Nibble(text[i]);
      if d == None {
        HexFoldPrefix(text, i + 1);
        return None;
      }
      result := result * 16 + d.value;
    }
    assert text[..|text|] == text;
    return Some(result);
  }

  method FromHex(text: seq<Byte>) returns (r: Option<seq<Byte>>)
    ensures r.Some? ==> SpellsBlock(text, r.value)
    ensures r == None ==> !Spelled(text)
  {
    if |text| % 2 != 0 {
      return None;
    }
    var data: seq<Byte> := [];
    for i := 0 to |text| / 2
      invariant |data| == i && SpellsBlock(text[..2 * i], data)
    {
      var value := HexToI(text[2 * i..2 * i + 2]);
      if Spelled(text) {
        SpelledPair(text, i);
      }
      if value == None {
        return None;
      }
      assert Pow16(2) == 16 * Pow16(1) == 256;
      var b := value.value as Byte;
      SpellsNext(text, data, b);
      data := data + [b];
    }
    assert text[..|text|] == text;
    return Some(data);
  }

  // ---- Command lines --------------------------------------------------------------

  // One command of the host: a line that fits a CAN-FD frame.
  ghost predicate OneLine(text: seq<Byte>)
  {
    |text| <= 60 && LineEnd(text + [LF]) == |text|
  }

  function WriteLine(address: nat, block: seq<Byte>): (s: seq<Byte>)
  {
    Ascii("w") + [SPACE] + HexText(address, 8) + [SPACE] + HexBlock(block)
  }

  // The bootloader reads the host's line as the very address and bytes.
  lemma WriteLineRead(address: nat, block: seq<Byte>)
    requires address < TWO32 && |block| <= FAST_WRITE_SIZE
    ensures OneLine(WriteLine(address, block))
    ensures Parse(WriteLine(address, block) + [LF]) == WriteCmd(HexText(address, 8), HexBlock(block))
  {
    hide HexText, HexBlock, Parse, LineEnd;
    TextIsHex(address, 8);
    BlockIsHex(block);
    HexIsText(HexText(address, 8));
    HexIsText(HexBlock(block));
    WriteLineParses(HexText(address, 8), HexBlock(block));
    assert WriteLine(address, block) + [LF]
      == Ascii("w") + [SPACE] + HexText(address, 8) + [SPACE] + HexBlock(block) + [LF];
  }

  // `{:x}` of a size up to 32.
  function SizeText(size: nat): (s: seq<Byte>)
    ensures 1 <= |s| <= 2
  {
    HexText(size, if size < 16 then 1 else 2)
  }

  function ReadLine(address: nat, size: nat): (s: seq<Byte>)
  {
    Ascii("r") + [SPACE] + HexText(address, 8) + [SPACE] + SizeText(size)
  }

  lemma ReadLineRead(address: nat, size: nat)
    requires address < TWO32 && size <= 32
    ensures OneLine(ReadLine(address, size))
    ensures Parse(ReadLine(address, size) + [LF]) == ReadCmd(HexText(address, 8), SizeText(size))
    ensures HexValue(SizeText(size)) == Some(size)
  {
    assert Pow16(2) == 16 * Pow16(1) == 256;
    hide HexText, HexFold, Parse, LineEnd;
    TextIsHex(address, 8);
    TextIsHex(size, if size < 16 then 1 else 2);
    HexIsText(HexText(address, 8));
    HexIsText(SizeText(size));
    HexRoundTrip(size, if size < 16 then 1 else 2);
    ReadLineParses(HexText(address, 8), SizeText(size));
    assert ReadLine(address, size) + [LF]
      == Ascii("r") + [SPACE] + HexText(address, 8) + [SPACE] + SizeText(size) + [LF];
  }

  // ---- Replies --------------------------------------------------------------------

  // A reply to a read splits into the address and the data it spells.
  lemma ReplySplits(address: nat, data: seq<Byte>)
    requires data != []
    ensures Fields(Strip(ReadReply(address, data))) == [UpperText(address, 8), UpperBlock(data)]
    ensures forall i :: 0 <= i < |ReadReply(address, data)| - 1 ==> ReadReply(address, data)[i] != LF
  {
    hide UpperText, UpperBlock, Fields, RStrip, LStrip, Strip;
    TextIsHex(address, 8);
    BlockIsHex(data);
    HexIsText(UpperText(address, 8));
    HexIsText(UpperBlock(data));
    var s := UpperText(address, 8) + [SPACE] + UpperBlock(data);
    assert ReadReply(address, data) == s + Ascii("\r\n");
    StripLine(s);
    TwoFields(UpperText(address, 8), UpperBlock(data));
  }

  // A restarted bootloader's banner has the shape of a successful reply, and
  // the host takes it for one; only reading flash back tells them apart.
  lemma BannerLooksLikeSuccess(date: seq<Byte>, time: seq<Byte>)
    ensures LF in BannerText(date, time) && !(Ascii("ERR") <= Strip(BannerText(date, time)))
    ensures |Fields(Strip(BannerText(date, time)))| > 2
  {
    hide Fields, RStrip;
    var head := Ascii("multiplex bootloader protocol 1");
    var banner := BannerText(date, time);
    assert banner[|banner| - 1] == LF;
    assert head <= banner && banner[0] == 109 && LStrip(banner) == banner;
    RStripKeeps(banner, head);
    ManyFields(Strip(banner)[|head|..]);
    assert Strip(banner) == head + Strip(banner)[|head|..];
  }

  lemma ManyFields(rest: seq<Byte>)
    ensures |Fields(Ascii("multiplex bootloader protocol 1") + rest)| > 2
  {
    hide Fields, LStrip;
    var a, b, c := Ascii("multiplex"), Ascii("bootloader"), Ascii("protocol 1");
    BannerWords();
    BannerStarts();
    hide Ascii;
    assert a + [SPACE] + b + [SPACE] + c + rest == a + ([SPACE] + (b + ([SPACE] + (c + rest))));
    assert (c + rest)[0] == c[0];
    ThreeFields(a, b, c + rest);
  }

  lemma BannerWords()
    ensures Ascii("multiplex bootloader protocol 1")
      == Ascii("multiplex") + [SPACE] + Ascii("bootloader") + [SPACE] + Ascii("protocol 1")
  {
    var words := "multiplex bootloader protocol 1";
    assert words[..9] == "multiplex";
    assert words[10..20] == "bootloader";
    assert words[21..] == "protocol 1";
    assert words[9] == words[20] == ' ';
    Spaced(words, 9, 20);
  }

  lemma Spaced(s: string, i: nat, j: nat)
    requires i < j < |s| && s[i] == s[j] == ' '
    ensures Ascii(s) == Ascii(s[..i]) + [SPACE] + Ascii(s[i + 1..j]) + [SPACE] + Ascii(s[j + 1..])
  {
  }

  lemma BannerStarts()
    ensures IsWord(Ascii("multiplex")) && IsWord(Ascii("bootloader")) && !IsSpace(Ascii("protocol 1")[0])
  {
  }

  lemma ThreeFields(a: seq<Byte>, b: seq<Byte>, c: seq<Byte>)
    requires IsWord(a) && IsWord(b) && c != [] && !IsSpace(c[0])
    ensures |Fields(a + ([SPACE] + (b + ([SPACE] + c))))| > 2
  {
    hide Fields, LStrip;
    FirstField(a, [SPACE] + (b + ([SPACE] + c)));
    SpaceSkipped(b + ([SPACE] + c));
    FirstField(b, [SPACE] + c);
    SpaceSkipped(c);
    SomeField(c);
  }

  lemma SomeField(s: seq<Byte>)
    requires s != [] && !IsSpace(s[0])
    ensures Fields(s) != []
  {
  }
}
