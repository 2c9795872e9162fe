// Splitting the bootloader's command buffer into a line and its tokens.
module CommandLine {
  import opened Octets

  // `strchr` also finds the terminating NUL of the delimiter string.
  predicate IsDelimiter(c: Byte)
  {
    c == SPACE || c == CR || c == LF || c == 0
  }

  function NextDelimiter(s: seq<Byte>, from: nat): (d: nat)
    requires from <= |s|
    ensures from <= d <= |s|
    ensures forall i :: from <= i < d ==> !IsDelimiter(s[i])
    ensures d < |s| ==> IsDelimiter(s[d])
    decreases |s| - from
  {
    if from == |s| || IsDelimiter(s[from]) then from else NextDelimiter(s, from + 1)
  }

  // The token starting at `from`, and where the next one starts.
  function Token(s: seq<Byte>, from: nat): (r: (seq<Byte>, nat))
    requires from <= |s|
    ensures from <= r.1 <= |s| && |r.0| <= |s|
  {
    var d := NextDelimiter(s, from);
    (s[from..d], if d < |s| then d + 1 else d)
  }

  class Tokenizer {
    const source: seq<Byte>
    var position: nat

    ghost predicate Valid()
      reads this
    {
      position <= |source|
    }

    constructor (s: seq<Byte>)
      ensures Valid() && source == s && position == 0
    {
      source, position := s, 0;
    }

    method Next() returns (token: seq<Byte>)
      requires Valid()
      modifies this
      ensures Valid() && (token, position) == Token(source, old(position))
    {
      if position == |source| {
        token := [];
        assert source[position..position] == [];
        return;
      }
      var start, next := position, position;
      while next < |source| && !IsDelimiter(source[next])
        invariant start <= next <= |source|
        invariant NextDelimiter(source, next) == NextDelimiter(source, start)
      {
        next := next + 1;
      }
      position := if next < |source| then next + 1 else next;
      return source[start..next];
    }

    function Remaining(): (r: seq<Byte>)
      requires Valid()
      reads this
    {
      source[position..]
    }
  }

  // The first line end, `find_first_of("\r\n")`, or the length if none.
  function LineEnd(s: seq<Byte>): (e: nat)
    ensures e <= |s|
    ensures e < |s| ==> s[e] == CR || s[e] == LF
    ensures forall i :: 0 <= i < e ==> s[i] != CR && s[i] != LF
  {
    if s == [] || s[0] == CR || s[0] == LF then 0 else 1 + LineEnd(s[1..])
  }

  datatype Command =
    | Blank
    | Echo(text: seq<Byte>)
    | Unlock
    | Lock
    | WriteCmd(address: seq<Byte>, data: seq<Byte>)
    | ReadCmd(address: seq<Byte>, size: seq<Byte>)
    | Reset
    | Unknown

  // The command at the head of the buffer. Tokens are cut from the whole
  // buffer, so a short line can borrow from the next one.
  function Parse(s: seq<Byte>): (c: Command)
  {
    var (name, p) := Token(s, 0);
    if name == [] then Blank
    else if name == Ascii("echo") then Echo(s[p..])
    else if name == Ascii("unlock") then Unlock
    else if name == Ascii("lock") then Lock
    else if name == Ascii("w") then
      var (address, q) := Token(s, p);
      var (data, _) := Token(s, q);
      WriteCmd(address, data)
    else if name == Ascii("r") then
      var (address, q) := Token(s, p);
      var (size, _) := Token(s, q);
      ReadCmd(address, size)
    else if name == Ascii("reset") then Reset
    else Unknown
  }

  lemma ParsedData(s: seq<Byte>)
    ensures Parse(s).WriteCmd? ==> |Parse(s).data| <= |s|
  {
  }

  method ParseLine(s: seq<Byte>) returns (c: Command)
    ensures c == Parse(s)
  {
    hide NextDelimiter, Token;
    var tokenizer := new Tokenizer(s);
    var next := tokenizer.Next();
    if next == [] {
      return Blank;
    } else if next == Ascii("echo") {
      return Echo(tokenizer.Remaining());
    } else if next == Ascii("unlock") {
      return Unlock;
    } else if next == Ascii("lock") {
      return Lock;
    } else if next == Ascii("w") {
      var address := tokenizer.Next();
      var data := tokenizer.Next();
      return WriteCmd(address, data);
    } else if next == Ascii("r") {
      var address := tokenizer.Next();
      var size := tokenizer.Next();
      return ReadCmd(address, size);
    } else if next == Ascii("reset") {
      return Reset;
    }
    return Unknown;
  }

  lemma TokenIs(s: seq<Byte>, from: nat, word: seq<Byte>)
    requires from + |word| < |s| && s[from..from + |word|] == word && IsDelimiter(s[from + |word|])
    requires forall i :: 0 <= i < |word| ==> !IsDelimiter(word[i])
    ensures Token(s, from) == (word, from + |word| + 1)
  {
    forall i | from <= i < from + |word|
      ensures !IsDelimiter(s[i])
    {
      assert s[i] == s[from..from + |word|][i - from];
    }
  }

  lemma TwoArguments(name: seq<Byte>, first: seq<Byte>, second: seq<Byte>)
    requires |name| == 1 && !IsDelimiter(name[0])
    requires forall i :: 0 <= i < |first| ==> !IsDelimiter(first[i])
    requires forall i :: 0 <= i < |second| ==> !IsDelimiter(second[i])
    ensures var s := name + [SPACE] + first + [SPACE] + second + [LF]; LineEnd(s) == |s| - 1
  {
    hide LineEnd;
    var s := name + [SPACE] + first + [SPACE] + second + [LF];
    assert s[0] == name[0] && s[|s| - 1] == LF;
    forall i | 0 <= i < |s| - 1
      ensures s[i] != CR && s[i] != LF
    {
      if 2 <= i < 2 + |first| {
        assert s[i] == first[i - 2];
      } else if 3 + |first| <= i {
        assert s[i] == second[i - 3 - |first|];
      }
    }
  }

  // A single `w` line parses to its two arguments.
  lemma WriteLineParses(address: seq<Byte>, data: seq<Byte>)
    requires forall i :: 0 <= i < |address| ==> !IsDelimiter(address[i])
    requires forall i :: 0 <= i < |data| ==> !IsDelimiter(data[i])
    ensures var s := Ascii("w") + [SPACE] + address + [SPACE] + data + [LF];
      Parse(s) == WriteCmd(address, data) && LineEnd(s) == |s| - 1
  {
    var s := Ascii("w") + [SPACE] + address + [SPACE] + data + [LF];
    TokenIs(s, 0, Ascii("w"));
    TokenIs(s, 2, address);
    TokenIs(s, 3 + |address|, data);
    TwoArguments(Ascii("w"), address, data);
  }

  lemma ReadLineParses(address: seq<Byte>, size: seq<Byte>)
    requires forall i :: 0 <= i < |address| ==> !IsDelimiter(address[i])
    requires forall i :: 0 <= i < |size| ==> !IsDelimiter(size[i])
    ensures var s := Ascii("r") + [SPACE] + address + [SPACE] + size + [LF];
      Parse(s) == ReadCmd(address, size) && LineEnd(s) == |s| - 1
  {
    var s := Ascii("r") + [SPACE] + address + [SPACE] + size + [LF];
    TokenIs(s, 0, Ascii("r"));
    TokenIs(s, 2, address);
    TokenIs(s, 3 + |address|, size);
    assert Ascii("r")[0] != Ascii("w")[0];
    TwoArguments(Ascii("r"), address, size);
  }

  lemma UnlockLineParses()
    ensures Parse(Ascii("unlock") + [LF]) == Unlock && LineEnd(Ascii("unlock") + [LF]) == 6
  {
    WordLine(Ascii("unlock"));
  }

  lemma LockLineParses()
    ensures Parse(Ascii("lock") + [LF]) == Lock && LineEnd(Ascii("lock") + [LF]) == 4
  {
    WordLine(Ascii("lock"));
    assert Ascii("lock")[0] != Ascii("echo")[0];
  }

  lemma ResetLineParses()
    ensures Parse(Ascii("reset") + [LF]) == Reset && LineEnd(Ascii("reset") + [LF]) == 5
  {
    WordLine(Ascii("reset"));
  }

  lemma WordLine(word: seq<Byte>)
    requires forall i :: 0 <= i < |word| ==> word[i] >= 97
    ensures Token(word + [LF], 0) == (word, |word| + 1) && LineEnd(word + [LF]) == |word|
  {
    var s := word + [LF];
    TokenIs(s, 0, word);
    assert s[|word|] == LF;
    assert forall i :: 0 <= i < |word| ==> s[i] == word[i];
  }

  lemma EchoLineParses(text: seq<Byte>)
    requires forall i :: 0 <= i < |text| ==> text[i] != CR && text[i] != LF
    ensures var s := Ascii("echo") + [SPACE] + text + [LF];
      Parse(s) == Echo(text + [LF]) && LineEnd(s) == |s| - 1
  {
    var s := Ascii("echo") + [SPACE] + text + [LF];
    TokenIs(s, 0, Ascii("echo"));
    assert s[5..] == text + [LF] && s[|s| - 1] == LF;
    forall i | 0 <= i < |s| - 1
      ensures s[i] != CR && s[i] != LF
    {
      if 5 <= i {
        assert s[i] == text[i - 5];
      }
    }
  }
}
