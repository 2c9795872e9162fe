// What repeated reads leave waiting in the bootloader, and why a host that
// gathers some of its frames cannot take stale bytes for another block.
module ReadStream {
  import opened Octets
  import opened Buffers
  import opened Codec
  import opened CommandServer
  import opened HostText

  // ---- Words and blanks --------------------------------------------------------

  ghost predicate Solid(s: seq<Byte>, from: nat, to: nat)
    requires to <= |s|
  {
    forall i :: from <= i < to ==> !IsSpace(s[i])
  }

  ghost predicate Blank(s: seq<Byte>, from: nat, to: nat)
    requires to <= |s|
  {
    forall i :: from <= i < to ==> IsSpace(s[i])
  }

  // Two words, from a to b and from c to d, and blanks around them.
  ghost predicate TwoWords(s: seq<Byte>, a: nat, b: nat, c: nat, d: nat)
  {
    && a < b < c < d <= |s|
    && Blank(s, 0, a) && Solid(s, a, b) && Blank(s, b, c) && Solid(s, c, d) && Blank(s, d, |s|)
  }

  lemma {:induction false} LStripAt(s: seq<Byte>) returns (k: nat)
    ensures k <= |s| && LStrip(s) == s[k..] && Blank(s, 0, k)
  {
    if s == [] || !IsSpace(s[0]) {
      k := 0;
    } else {
      k := LStripAt(s[1..]);
      k := k + 1;
      assert forall i :: 1 <= i < k ==> s[i] == s[1..][i - 1];
    }
  }

  lemma {:induction false} RStripAt(s: seq<Byte>) returns (k: nat)
    ensures k <= |s| && RStrip(s) == s[..k] && Blank(s, k, |s|)
  {
    if s == [] || !IsSpace(s[|s| - 1]) {
      k := |s|;
    } else {
      var t := s[..|s| - 1];
      k := RStripAt(t);
      assert forall i :: k <= i < |t| ==> s[i] == t[i];
    }
  }

  // The first field lies between blanks and the rest of the text.
  lemma FirstAt(s: seq<Byte>) returns (a: nat, b: nat)
    requires Fields(s) != []
    ensures a < b <= |s| && Blank(s, 0, a) && Solid(s, a, b) && (b < |s| ==> IsSpace(s[b]))
    ensures Fields(s) == [s[a..b]] + Fields(s[b..])
  {
    a := LStripAt(s);
    var t := s[a..];
    var n := WordEnd(t);
    b := a + n;
    assert t[..n] == s[a..b] && t[n..] == s[b..];
    assert forall i :: a <= i < b ==> s[i] == t[i - a];
    if b < |s| {
      assert s[b] == t[n];
    }
  }

  lemma NoFields(s: seq<Byte>)
    requires Fields(s) == []
    ensures Blank(s, 0, |s|)
  {
    var k := LStripAt(s);
  }

  lemma WordsOf(s: seq<Byte>) returns (a: nat, b: nat, c: nat, d: nat)
    requires |Fields(s)| == 2
    ensures TwoWords(s, a, b, c, d) && Fields(s) == [s[a..b], s[c..d]]
  {
    hide Fields;
    a, b := FirstAt(s);
    var t := s[b..];
    var i, j := FirstAt(t);
    c, d := b + i, b + j;
    NoFields(t[j..]);
    assert t[j..] == s[d..] && t[i..j] == s[c..d];
    assert forall k :: b <= k < |s| ==> s[k] == t[k - b];
    assert forall k :: d <= k < |s| ==> s[k] == t[j..][k - d];
    assert i > 0 by {
      if i == 0 {
        assert s[b] == t[0];
      }
    }
  }

  // The same of a line that has been stripped.
  lemma WordsOfLine(s: seq<Byte>) returns (a: nat, b: nat, c: nat, d: nat)
    requires |Fields(Strip(s))| == 2
    ensures TwoWords(s, a, b, c, d) && Fields(Strip(s)) == [s[a..b], s[c..d]]
  {
    hide Fields;
    var from := LStripAt(s);
    var t := s[from..];
    var to := RStripAt(t);
    a, b, c, d := WordsOf(t[..to]);
    assert t[..to][a..b] == s[from + a..from + b] && t[..to][c..d] == s[from + c..from + d];
    assert forall k :: from <= k < |s| ==> s[k] == t[k - from];
    assert forall k :: 0 <= k < to ==> t[k] == t[..to][k];
    assert forall k :: d <= k < |t| ==> IsSpace(t[k]);
    a, b, c, d := from + a, from + b, from + c, from + d;
  }

  // Whatever stands in front of it, a banner makes a line of more than two words.
  lemma BannerManyWords(s: seq<Byte>, date: seq<Byte>, time: seq<Byte>, o: nat, a: nat, b: nat, c: nat, d: nat)
    requires o + |BannerText(date, time)| <= |s|
    requires s[o..o + |BannerText(date, time)|] == BannerText(date, time)
    ensures !TwoWords(s, a, b, c, d)
  {
    var head := Ascii("multiplex bootloader protocol 1 ");
    BannerBlanks();
    assert head <= BannerText(date, time);
    hide BannerText, Ascii, IsSpace;
    assert forall i :: 0 <= i < |head| ==> s[o + i] == s[o..o + |BannerText(date, time)|][i] == head[i];
    assert !IsSpace(s[o]) && IsSpace(s[o + 9]) && !IsSpace(s[o + 10]) && IsSpace(s[o + 20]) && !IsSpace(s[o + 21]);
  }

  lemma BannerBlanks()
    ensures var head := Ascii("multiplex bootloader protocol 1 ");
      |head| == 32 && !IsSpace(head[0]) && IsSpace(head[9]) && !IsSpace(head[10]) && IsSpace(head[20]) && !IsSpace(head[21])
  {
    var words := "multiplex bootloader protocol 1 ";
    assert words[0] == 'm' && words[9] == words[20] == ' ' && words[10] == 'b' && words[21] == 'p';
  }

  // ---- The answer to a read ------------------------------------------------------

  // Eight digits, a blank, two digits a byte and the line end.
  ghost predicate IsAnswer(text: seq<Byte>, n: nat)
  {
    && 1 <= n <= 32 && |text| == 11 + 2 * n
    && (forall o :: 0 <= o < |text| ==> (IsSpace(text[o]) <==> o == 8 || o >= |text| - 2))
    && (forall o :: 0 <= o < |text| ==> (text[o] == LF <==> o == |text| - 1))
  }

  lemma ReadReplyShape(address: nat, data: seq<Byte>)
    requires 1 <= |data| <= 32
    ensures IsAnswer(ReadReply(address, data), |data|)
    ensures ReadReply(address, data)[9..9 + 2 * |data|] == UpperBlock(data)
  {
    hide UpperText, UpperBlock, IsHex, ReadReply, IsAnswer, Solid;
    TextIsHex(address, 8);
    BlockIsHex(data);
    HexSolid(UpperText(address, 8));
    HexSolid(UpperBlock(data));
    AnswerParts(address, data);
    AnswerShape(UpperText(address, 8), UpperBlock(data), |data|);
  }

  lemma HexSolid(s: seq<Byte>)
    requires IsHex(s)
    ensures Solid(s, 0, |s|)
  {
    HexIsText(s);
  }

  lemma AnswerParts(address: nat, data: seq<Byte>)
    ensures ReadReply(address, data) == UpperText(address, 8) + [SPACE] + UpperBlock(data) + [CR, LF]
    ensures Ascii(" ") == [SPACE] && Ascii("\r\n") == [CR, LF]
  {
    hide UpperText, UpperBlock;
  }

  lemma AnswerShape(digits: seq<Byte>, block: seq<Byte>, n: nat)
    requires |digits| == 8 && Solid(digits, 0, |digits|) && Solid(block, 0, |block|)
    requires |block| == 2 * n && 1 <= n <= 32
    ensures IsAnswer(digits + [SPACE] + block + [CR, LF], n)
    ensures (digits + [SPACE] + block + [CR, LF])[9..9 + 2 * n] == block
  {
    var text := digits + [SPACE] + block + [CR, LF];
    assert forall o :: 0 <= o < 8 ==> text[o] == digits[o];
    assert forall o :: 9 <= o < 9 + |block| ==> text[o] == block[o - 9];
    forall o | 0 <= o < |text|
      ensures (IsSpace(text[o]) <==> o == 8 || o >= |text| - 2) && (text[o] == LF <==> o == |text| - 1)
    {
      if 9 <= o < 9 + |block| {
        assert !IsSpace(block[o - 9]);
      }
    }
  }

  // ---- A stream of answers ---------------------------------------------------------

  // The place of a byte in its frame; whole frames are taken, so it is the
  // same in everything that is left or gathered.
  function Index(x: nat): (i: nat)
    ensures i < 61
  {
    x % 61
  }

  lemma IndexIn(q: nat, i: nat)
    requires Index(q) == 0
    ensures i < 61 ==> Index(q + i) == i
    ensures Index(q + 61) == 0 && (q >= 61 ==> Index(q - 61) == 0)
  {
  }

  lemma FrameAt(x: nat)
    ensures Index(x) <= x && Index(x - Index(x)) == 0
    ensures Index(x) == 0 ==> x == 0 || x >= 61
  {
  }

  lemma IndexNext(x: nat, y: nat)
    ensures Index(x) == Index(y) ==> Index(x + 1) == Index(y + 1)
    ensures Index(x + 1) == 0 <==> Index(x) == 60
  {
  }

  lemma FramesApart(y: nat, x: nat) returns (i: nat)
    requires Index(y) == Index(x) == 0 && 61 <= y <= x < CAPACITY
    ensures i <= 3 && x == y + 61 * i
  {
    i := (x - y) / 61;
  }

  lemma IndexShift(x: nat, m: nat)
    requires Index(m) == 0
    ensures Index(x + m) == Index(x)
  {
  }

  lemma SameFrames(q: nat, e: nat)
    requires Index(q) == Index(e) == 0
    ensures e < q + 61 ==> e <= q
  {
  }

  function Succ(o: int, n: int): (o': int)
  {
    if o == n - 1 then 0 else o + 1
  }

  // The byte after byte `o` of an answer, at offset `x` of the stream: the
  // next one, or the start of another answer, with or without its address,
  // where the one before did not fit.
  predicate Step(o: int, o': int, x: nat, n: nat)
  {
    o' == Succ(o, n) || (5 <= Index(x) <= 12 && (o' == 0 || o' == 8))
  }

  ghost predicate StepsAt(at: seq<int>, x: nat, n: nat)
    requires 0 < x < |at|
  {
    Step(at[x - 1], at[x], x, n)
  }

  // An address is there as a whole.
  ghost predicate WholeAt(at: seq<int>, x: nat)
    requires x < |at|
  {
    at[x] == 0 ==> x + 8 <= |at| && forall y :: x <= y < x + 8 ==> at[y] == y - x
  }

  // Behind what may be left of a banner, byte `x` is byte `at[x]` of an answer.
  ghost predicate Stream(p: seq<Byte>, text: seq<Byte>, banner: seq<Byte>, g: nat, at: seq<int>)
  {
    && |at| == |p| <= CAPACITY
    && (g == 0 || (g == |banner| == 54 && banner <= p))
    && (forall x :: g <= x < |p| ==> 0 <= at[x] < |text| && p[x] == text[at[x]])
    && (forall x :: g < x < |p| ==> StepsAt(at, x, |text|))
    && (forall x :: g <= x < |p| ==> WholeAt(at, x))
    && (g < |p| ==> at[|p| - 1] == |text| - 1 || 5 <= Index(|p|) <= 12)
  }

  ghost predicate Stale(p: seq<Byte>, text: seq<Byte>, banner: seq<Byte>)
  {
    exists g, at :: Stream(p, text, banner, g, at)
  }

  lemma StaleStart(text: seq<Byte>, banner: seq<Byte>)
    ensures Stale([], text, banner)
    ensures |banner| == 54 ==> Stale(banner, text, banner)
  {
    assert Stream([], text, banner, 0, []);
    if |banner| == 54 {
      assert Stream(banner, text, banner, 54, seq<int>(54, i => 0));
    }
  }

  // What the frames that were taken leave.
  function Drop(p: seq<Byte>, k: nat): (r: seq<Byte>)
  {
    if 61 * k <= |p| then p[61 * k..] else []
  }

  lemma StaleDrop(p: seq<Byte>, text: seq<Byte>, banner: seq<Byte>, k: nat)
    requires Stale(p, text, banner)
    ensures Stale(Drop(p, k), text, banner)
  {
    var g, at :| Stream(p, text, banner, g, at);
    if k == 0 {
      assert Drop(p, 0) == p;
    } else if 61 * k >= |p| {
      assert Drop(p, k) == [];
      StaleStart(text, banner);
    } else {
      assert Index(61 * k) == 0;
      StreamDrop(p, text, banner, g, at, 61 * k);
    }
  }

  lemma StreamDrop(p: seq<Byte>, text: seq<Byte>, banner: seq<Byte>, g: nat, at: seq<int>, m: nat)
    requires Stream(p, text, banner, g, at) && 61 <= m < |p| && Index(m) == 0
    ensures Stream(p[m..], text, banner, 0, at[m..])
  {
    hide Index;
    var q, bt := p[m..], at[m..];
    IndexShift(|q|, m);
    forall x | 0 < x < |q|
      ensures StepsAt(bt, x, |text|)
    {
      IndexShift(x, m);
      assert StepsAt(at, x + m, |text|);
    }
    forall x | 0 <= x < |q|
      ensures WholeAt(bt, x)
    {
      assert WholeAt(at, x + m);
      assert forall y :: x <= y < |q| ==> bt[y] == at[y + m];
    }
    forall x | 0 <= x < |q|
      ensures 0 <= bt[x] < |text| && q[x] == text[bt[x]]
    {
      assert q[x] == p[x + m] && bt[x] == at[x + m];
    }
  }

  // ---- What another answer adds ------------------------------------------------------

  lemma {:induction false} PutPairsFit(s: seq<Byte>, data: seq<Byte>) returns (m: nat)
    requires |s| <= CAPACITY
    ensures m <= |data| && PutPairs(s, data) == s + UpperBlock(data[..m]) && |PutPairs(s, data)| <= CAPACITY
    ensures m == |data| || |PutPairs(s, data)| >= CAPACITY - 1
  {
    hide UpperText;
    if data == [] {
      m := 0;
      assert s + UpperBlock(data[..0]) == s;
    } else {
      var n := |data| - 1;
      m := PutPairsFit(s, data[..n]);
      assert data[..n][..m] == data[..m];
      if m == n && |s + UpperBlock(data[..m])| + 2 <= CAPACITY {
        UpperBlockGrows(data, n);
        assert data[..n + 1] == data;
        m := n + 1;
      }
    }
  }

  // A run of an answer behind what is waiting; a run that is cut short fills
  // the buffer, and only a nearly full one loses the address.
  lemma PutReadRun(s: seq<Byte>, address: nat, data: seq<Byte>) returns (from: nat, to: nat)
    requires |s| <= CAPACITY && 1 <= |data| <= 32
    ensures from <= to <= |ReadReply(address, data)|
    ensures PutRead(s, address, data) == s + ReadReply(address, data)[from..to]
    ensures |PutRead(s, address, data)| <= CAPACITY
    ensures to == |ReadReply(address, data)| || |PutRead(s, address, data)| >= CAPACITY - 1
    ensures (from == 0 && to >= 8) || (from == 8 && |s| >= CAPACITY - 7)
  {
    hide UpperText, UpperBlock, PutPairs;
    AnswerParts(address, data);
    hide ReadReply, Ascii;
    var text, digits, block := ReadReply(address, data), UpperText(address, 8), UpperBlock(data);
    var s1 := Fitted(s, digits);
    var s2 := Fitted(s1, [SPACE]);
    var m := PutPairsFit(s2, data);
    UpperBlockPrefix(data, m);
    AnswerSlices(digits, block, m);
    from := if |s| + 8 <= CAPACITY then 0 else 8;
    if |s1| == CAPACITY {
      to := 8;
      assert m == 0 && block[..2 * m] == [];
    } else if |s2| + 2 * m + 2 <= CAPACITY {
      to := |text|;
      assert block[..2 * m] == block;
      assert text[from..to] == (if from == 0 then digits else []) + [SPACE] + block + [CR, LF];
    } else {
      to := 9 + 2 * m;
    }
  }

  lemma AnswerSlices(digits: seq<Byte>, block: seq<Byte>, m: nat)
    requires |digits| == 8 && 2 * m <= |block|
    ensures var text := digits + [SPACE] + block + [CR, LF];
      && text[0..8] == digits && text[8..8] == []
      && text[0..9 + 2 * m] == digits + [SPACE] + block[..2 * m]
      && text[8..9 + 2 * m] == [SPACE] + block[..2 * m]
      && text[0..|text|] == text && text[8..|text|] == [SPACE] + block + [CR, LF]
  {
  }

  lemma {:induction false} UpperBlockPrefix(data: seq<Byte>, m: nat)
    requires m <= |data|
    ensures UpperBlock(data[..m]) == UpperBlock(data)[..2 * m]
    decreases |data| - m
  {
    hide UpperText, UpperBlock;
    if m == |data| {
      assert data[..m] == data;
    } else {
      UpperBlockPrefix(data, m + 1);
      UpperBlockGrows(data, m);
      assert UpperBlock(data[..m]) == UpperBlock(data[..m + 1])[..2 * m];
    }
  }

  lemma StaleRead(p: seq<Byte>, address: nat, data: seq<Byte>, banner: seq<Byte>)
    requires 1 <= |data| <= 32 && Stale(p, ReadReply(address, data), banner)
    ensures Stale(PutRead(p, address, data), ReadReply(address, data), banner)
  {
    hide ReadReply, PutRead;
    var text := ReadReply(address, data);
    var g, at :| Stream(p, text, banner, g, at);
    var from, to := PutReadRun(p, address, data);
    var q := PutRead(p, address, data);
    var bt := at + seq<int>(to - from, i => from + i);
    StreamGrows(p, text, banner, g, at, from, to);
  }

  lemma StreamGrows(p: seq<Byte>, text: seq<Byte>, banner: seq<Byte>, g: nat, at: seq<int>, from: nat, to: nat)
    requires Stream(p, text, banner, g, at) && from <= to <= |text| && |text| >= 13
    requires |p| + to - from <= CAPACITY && (to == |text| || |p| + to - from >= CAPACITY - 1)
    requires (from == 0 && to >= 8) || (from == 8 && |p| >= CAPACITY - 7)
    ensures Stream(p + text[from..to], text, banner, g, at + seq<int>(to - from, i => from + i))
  {
    var q, bt := p + text[from..to], at + seq<int>(to - from, i => from + i);
    forall x | g < x < |q|
      ensures StepsAt(bt, x, |text|)
    {
      if x < |p| {
        assert StepsAt(at, x, |text|);
      }
    }
    WholesGrow(at, bt, g, from);
  }

  lemma WholesGrow(at: seq<int>, bt: seq<int>, g: nat, from: nat)
    requires |at| <= |bt| && (from == 8 || (from == 0 && |at| + 8 <= |bt|))
    requires forall x :: 0 <= x < |bt| ==> bt[x] == if x < |at| then at[x] else from + x - |at|
    requires forall x :: g <= x < |at| ==> WholeAt(at, x)
    ensures forall x :: g <= x < |bt| ==> WholeAt(bt, x)
  {
    forall x | g <= x < |bt|
      ensures WholeAt(bt, x)
    {
      if x < |at| {
        assert WholeAt(at, x);
        assert at[x] == 0 ==> forall y :: x <= y < x + 8 ==> bt[y] == at[y];
      }
    }
  }

  // ---- What the host gathers -----------------------------------------------------

  ghost predicate FollowsAt(from: seq<int>, z: nat)
    requires 0 < z < |from|
  {
    if Index(z) == 0 then from[z - 1] < from[z] else from[z] == from[z - 1] + 1
  }

  // Byte `z` of the gathered text is byte `from[z]` of what was waiting:
  // frames of 61 bytes in their order, some of them missing; only the last
  // can be shorter.
  ghost predicate Picked(p: seq<Byte>, s: seq<Byte>, from: seq<int>)
  {
    && |from| == |s|
    && (forall z :: 0 <= z < |s| ==> 0 <= from[z] < |p| && s[z] == p[from[z]] && Index(from[z]) == Index(z))
    && (forall z :: 0 < z < |s| ==> FollowsAt(from, z))
    && (Index(|s|) != 0 ==> from[|s| - 1] == |p| - 1)
  }

  lemma {:induction false} SameFrame(p: seq<Byte>, s: seq<Byte>, from: seq<int>, y: nat, z: nat)
    requires Picked(p, s, from) && y <= z < |s| && Index(y) + (z - y) < 61
    ensures from[z] == from[y] + (z - y)
  {
    hide Index;
    if y < z {
      SameFrame(p, s, from, y, z - 1);
      assert FollowsAt(from, z);
      FrameAt(y);
      IndexIn(y - Index(y), Index(y) + (z - y));
    }
  }

  lemma {:induction false} Ascending(p: seq<Byte>, s: seq<Byte>, from: seq<int>, y: nat, z: nat)
    requires Picked(p, s, from) && y <= z < |s|
    ensures from[y] + (z - y) <= from[z]
  {
    if y < z {
      Ascending(p, s, from, y, z - 1);
      assert FollowsAt(from, z);
    }
  }

  // The text ends with the frame that brought a line end.
  ghost predicate LineAtEnd(s: seq<Byte>, e: nat)
  {
    Index(e) == 0 && e < |s| <= e + 61 && LF !in s[..e] && LF in s[e..]
  }

  // ---- Labels of the gathered text -----------------------------------------------

  ghost predicate InFrame(l: seq<int>, z: nat, n: nat)
    requires 0 < z < |l|
  {
    Index(z) != 0 ==> Step(l[z - 1], l[z], z, n)
  }

  ghost predicate WholeInFrame(l: seq<int>, z: nat)
    requires z < |l|
  {
    var k := Min(8, 61 - Index(z));
    l[z] == 0 ==> z + k <= |l| && forall y :: z <= y < z + k ==> l[y] == y - z
  }

  // Behind a frame that ends just before a line end no frame starts just
  // inside the data.
  ghost predicate NotShifted(l: seq<int>, z: nat, n: nat)
    requires 0 < z < |l|
  {
    Index(z) == 0 && n >= 73 && l[z - 1] == n - 2 ==> !(10 <= l[z] <= 12)
  }

  ghost predicate Labelled(s: seq<Byte>, text: seq<Byte>, l: seq<int>)
  {
    && |l| == |s|
    && (forall z :: 0 <= z < |s| ==> 0 <= l[z] < |text| && s[z] == text[l[z]])
    && (forall z :: 0 < z < |s| ==> InFrame(l, z, |text|) && NotShifted(l, z, |text|))
    && (forall z :: 0 <= z < |s| ==> WholeInFrame(l, z))
    && (Index(|s|) != 0 ==> l[|s| - 1] == |text| - 1 || 5 <= Index(|s|) <= 12)
  }

  // Two words gathered from a stream of answers, the second as long as the
  // data; the labels of all bytes and where the last frame begins.
  datatype Reading = Reading(s: seq<Byte>, text: seq<Byte>, n: nat, l: seq<int>, e: nat, a: nat, b: nat, c: nat, d: nat)
  {
    ghost predicate Ok() {
      && IsAnswer(text, n) && Labelled(s, text, l) && LineAtEnd(s, e) && TwoWords(s, a, b, c, d)
      && a + 7 <= b && d == c + 2 * n
    }
  }

  lemma BlankLabel(r: Reading, z: nat)
    requires r.Ok() && z < |r.s|
    ensures 0 <= r.l[z] < |r.text|
    ensures IsSpace(r.s[z]) <==> r.l[z] == 8 || r.l[z] >= |r.text| - 2
    ensures r.l[z] == |r.text| - 1 <==> r.s[z] == LF
    ensures r.c <= z < r.d ==> !IsSpace(r.s[z])
    ensures z < r.a || r.b <= z < r.c || r.d <= z ==> IsSpace(r.s[z])
    ensures z < r.e ==> r.s[z] != LF
    ensures z > 0 ==> InFrame(r.l, z, |r.text|) && NotShifted(r.l, z, |r.text|)
    ensures WholeInFrame(r.l, z)
  {
    if z < r.e {
      assert r.s[z] == r.s[..r.e][z];
    }
  }

  lemma Bounds(r: Reading)
    requires r.Ok()
    ensures |r.l| == |r.s| > 0 && |r.text| == 11 + 2 * r.n && 1 <= r.n <= 32
    ensures Index(r.e) == 0 && r.e < |r.s| <= r.e + 61 && LF in r.s[r.e..]
    ensures r.a + 7 <= r.b < r.c < r.d <= |r.s| && r.d == r.c + 2 * r.n
    ensures Index(|r.s|) == 0 || r.l[|r.s| - 1] == |r.text| - 1 || 5 <= Index(|r.s|) <= 12
  {
  }

  // From the fourteenth byte of a frame on, byte follows byte.
  lemma Inside(r: Reading, q: nat, i: nat)
    requires r.Ok() && Index(q) == 0 && 13 <= i <= 60 && q + i < |r.s|
    ensures |r.l| == |r.s| && r.l[q + i] == Succ(r.l[q + i - 1], |r.text|)
  {
    hide Reading.Ok, IsSpace, NotShifted, WholeInFrame, Index;
    Bounds(r);
    BlankLabel(r, q + i);
    IndexIn(q, i);
  }

  // No answer starts inside the second word: its data would be a third one.
  lemma NoRestart(r: Reading, z: nat)
    requires r.Ok() && r.c <= z < r.d && 5 <= Index(z) <= 51
    ensures r.l[z] != 0
  {
    hide Reading.Ok, IsSpace, NotShifted, InFrame, Index, WholeInFrame;
    Bounds(r);
    var i := Index(z);
    FrameAt(z);
    var q := z - i;
    if r.l[z] == 0 {
      AddressGoesOn(r, q, i);
      Inside(r, q, i + 8);
      BlankLabel(r, z + 8);
      IndexIn(q, i + 9);
      Inside(r, q, i + 9);
      BlankLabel(r, z + 9);
    }
  }

  // An address is not the end of the last frame.
  lemma AddressGoesOn(r: Reading, q: nat, i: nat)
    requires r.Ok() && Index(q) == 0 && 5 <= i <= 51 && q + i < |r.s| && r.l[q + i] == 0
    ensures q + i + 8 < |r.s| && r.l[q + i + 7] == 7 && |r.l| == |r.s|
  {
    hide Reading.Ok, IsSpace, NotShifted, InFrame, Index;
    Bounds(r);
    BlankLabel(r, q + i);
    IndexIn(q, i);
    IndexIn(q, i + 8);
    assert q + i + 7 < |r.s| && r.l[q + i + 7] == 7;
  }

  // Inside a frame the second word runs through one answer.
  lemma {:induction false} Consecutive(r: Reading, y: nat, z: nat)
    requires r.Ok() && r.c <= y <= z < r.d && Index(y) + (z - y) < 61
    ensures r.l[z] == r.l[y] + (z - y)
  {
    hide Reading.Ok, IsSpace, NotShifted, WholeInFrame, Index;
    Bounds(r);
    if y < z {
      Consecutive(r, y, z - 1);
      BlankLabel(r, z - 1);
      BlankLabel(r, z);
      FrameAt(y);
      IndexIn(y - Index(y), Index(y) + (z - y));
      if r.l[z] == 0 {
        NoRestart(r, z);
      }
    }
  }

  // A frame without a line end lies inside one answer from its thirteenth byte on.
  lemma {:induction false} FullFrame(r: Reading, q: nat, i: nat)
    requires r.Ok() && Index(q) == 0 && q + 61 <= r.e && 12 <= i <= 60
    ensures r.l[q + i] == r.l[q + 12] + (i - 12) < |r.text| - 1
    ensures r.e <= |r.s|
  {
    hide Reading.Ok, IsSpace, NotShifted, WholeInFrame, InFrame, Index;
    Bounds(r);
    BlankLabel(r, q + i);
    if i > 12 {
      FullFrame(r, q, i - 1);
      BlankLabel(r, q + i - 1);
      Inside(r, q, i);
    }
  }

  // ---- A short answer: everything comes from one frame ---------------------------

  lemma {:induction false} BackRun(r: Reading, z: nat, j: nat)
    requires r.Ok() && z < |r.s| && r.l[z] == |r.text| - 1
    requires j < |r.text| && j + 13 <= z <= 60
    ensures r.l[z - j] == |r.text| - 1 - j
  {
    hide Reading.Ok, IsSpace, NotShifted, WholeInFrame, InFrame;
    Bounds(r);
    if j > 0 {
      BackRun(r, z, j - 1);
      BlankLabel(r, z - j);
      Inside(r, 0, z - j + 1);
    }
  }

  // Nor is the second word the address of an answer the frame cuts off: a
  // whole answer would stand before it.
  lemma LateStart(r: Reading)
    requires r.Ok() && r.e == 0 && r.c >= 52
    ensures r.l[r.c] != 0
  {
    hide Reading.Ok, IsSpace, NotShifted, WholeInFrame, InFrame;
    Bounds(r);
    BlankLabel(r, r.c);
    BlankLabel(r, r.c - 1);
    if r.l[r.c] == 0 {
      CutOff(r);
      Inside(r, 0, r.c);
      var n := |r.text|;
      BackRun(r, r.c - 1, n - 1);
      BackRun(r, r.c - 1, n - 9);
      BackRun(r, r.c - 1, n - 10);
      BlankLabel(r, r.c - n);
      BlankLabel(r, r.c - n + 8);
      BlankLabel(r, r.c - n + 9);
      FirstWord(r, r.c - n + 8);
    }
  }

  // An address at the end of the only frame.
  lemma CutOff(r: Reading)
    requires r.Ok() && r.e == 0 && r.c >= 52 && r.l[r.c] == 0
    ensures |r.s| == 61 && r.d <= r.c + 8
  {
    hide Reading.Ok, IsSpace, NotShifted;
    Bounds(r);
    BlankLabel(r, r.c);
    if r.c == 52 {
      assert r.l[59] == 7;
      if |r.s| == 61 {
        BlankLabel(r, 60);
      }
    } else {
      assert 60 < |r.l|;
    }
  }

  lemma FirstWord(r: Reading, z: nat)
    requires r.Ok() && r.a <= z < r.b
    ensures !IsSpace(r.s[z])
  {
  }

  lemma ShortStart(r: Reading)
    requires r.Ok() && r.n < 20
    ensures r.l[r.c] == 9 && r.e == 0
  {
    hide Reading.Ok, IsSpace, NotShifted, WholeInFrame;
    Bounds(r);
    if r.e > 0 {
      SameFrames(0, r.e);
      FullFrame(r, 0, 60);
      BlankLabel(r, 12);
      assert false;
    }
    BlankLabel(r, r.c);
    BlankLabel(r, r.c - 1);
    if r.c >= 52 {
      LateStart(r);
    } else {
      if r.l[r.c] == 0 {
        NoRestart(r, r.c);
      }
    }
  }

  // ---- A long answer: the word may go on in a later frame ------------------------

  lemma LongStart(r: Reading)
    requires r.Ok() && r.n >= 20
    ensures r.l[r.c] >= 9
  {
    hide Reading.Ok, IsSpace, NotShifted, WholeInFrame, InFrame, Index;
    Bounds(r);
    BlankLabel(r, r.c);
    BlankLabel(r, r.c - 1);
    if r.l[r.c] < 9 {
      if Index(r.c) <= 52 {
        var y := r.c + 8 - r.l[r.c];
        Consecutive(r, r.c, y);
        BlankLabel(r, y);
      } else {
        // the byte before is a line end, so the frame is the last
        FrameAt(r.c);
        Inside(r, r.c - Index(r.c), Index(r.c));
        SameFrames(r.c - Index(r.c), r.e);
        assert false;
      }
    }
  }

  lemma StartLabel(r: Reading)
    requires r.Ok() && r.n >= 20
    ensures r.l[r.c] >= 9
    ensures Index(r.c) != 0 ==> r.l[r.c] == 9 && r.l[r.c - 1] == 8
    ensures Index(r.c) == 0 ==> r.c >= 61 && r.l[r.c - 1] == |r.text| - 2 && NotShifted(r.l, r.c, |r.text|)
  {
    hide Reading.Ok, IsSpace, WholeInFrame, NotShifted, Index;
    Bounds(r);
    LongStart(r);
    BlankLabel(r, r.c);
    BlankLabel(r, r.c - 1);
    if Index(r.c) == 0 {
      FrameAt(r.c);
      IndexIn(r.c, 0);
      SameFrames(r.e, r.c);
      FullFrame(r, r.c - 61, 60);
      BlankLabel(r, r.c - 49);
    }
  }

  // Behind a frame that starts with the rest of a word, nothing but the end of
  // that answer's line can follow.
  lemma ShortTail(r: Reading, q: nat)
    requires r.Ok() && Index(q) == 0 && q < r.d <= q + 24
    ensures |r.s| <= q + 27
  {
    hide Reading.Ok, IsSpace, NotShifted, WholeInFrame, InFrame, Index;
    Bounds(r);
    if |r.s| > q + 27 {
      Inside(r, q, 26);
      Inside(r, q, 27);
      BlankLabel(r, q + 25);
      BlankLabel(r, q + 26);
      BlankLabel(r, q + 27);
    }
  }

  // Blanks behind a blank before data are never a line end.
  lemma {:induction false} EightStays(r: Reading, w: nat)
    requires r.Ok() && r.d <= w < |r.s| && r.l[r.d] == 8 && Index(r.d) + (w - r.d) < 61
    ensures r.l[w] == 8
  {
    hide Reading.Ok, IsSpace, NotShifted, WholeInFrame, Index;
    Bounds(r);
    if r.d < w {
      EightStays(r, w - 1);
      BlankLabel(r, w);
      FrameAt(r.d);
      IndexIn(r.d - Index(r.d), Index(r.d) + (w - r.d));
    }
  }

  lemma LineEndAt(r: Reading) returns (w: nat)
    requires r.Ok()
    ensures r.e <= w < |r.s| && r.s[w] == LF
  {
    hide IsAnswer, Labelled, TwoWords;
    var i :| 0 <= i < |r.s[r.e..]| && r.s[r.e..][i] == LF;
    w := r.e + i;
  }

  // The word ends where the data of an answer ends.
  lemma EndLabel(r: Reading, q: nat)
    requires r.Ok() && r.c < q && Index(q) == 0 && q < r.d <= q + 24
    ensures r.l[r.d - 1] == |r.text| - 3 && q == r.e && Index(|r.s|) != 0
  {
    hide Reading.Ok, IsSpace, NotShifted, WholeInFrame, Index;
    Bounds(r);
    ShortTail(r, q);
    SameFrames(r.e, q);
    SameFrames(q, r.e);
    IndexIn(q, |r.s| - q);
    var w := LineEndAt(r);
    BlankLabel(r, w);
    IndexIn(q, r.d - q);
    BlankLabel(r, r.d);
    BlankLabel(r, r.d - 1);
    if r.l[r.d] == 8 {
      EightStays(r, w);
    }
  }

  // Where the first part of a word in two frames can start.
  lemma FirstPart(r: Reading, q: nat)
    requires r.Ok() && r.n >= 20 && q == r.c - Index(r.c) + 61 < r.d
    ensures r.l[r.c] == 9 && r.d <= q + 24
  {
    hide Reading.Ok, IsSpace, WholeInFrame, InFrame, Index;
    Bounds(r);
    StartLabel(r);
    FrameAt(r.c);
    IndexIn(q - 61, 0);
    SameFrames(r.e, q);
    if Index(r.c) == 0 {
      Consecutive(r, r.c, q - 1);
      BlankLabel(r, q - 1);
    } else if Index(r.c) >= 14 {
      FullFrame(r, q - 61, Index(r.c) - 1);
      BlankLabel(r, q - 49);
    }
  }

  // The word is the data of an answer, byte for byte.
  lemma WordLabels(r: Reading, z: nat)
    requires r.Ok() && r.c <= z < r.d
    ensures r.l[z] == 9 + (z - r.c)
    ensures r.n == 32 ==> Index(|r.s|) != 0
  {
    hide Reading.Ok, IsSpace, NotShifted, WholeInFrame, InFrame, Index;
    Bounds(r);
    var q := r.c - Index(r.c) + 61;
    if r.d <= q {
      if r.n < 20 {
        ShortStart(r);
      } else {
        StartLabel(r);
        Consecutive(r, r.c, r.d - 1);
        BlankLabel(r, r.d - 1);
      }
      Consecutive(r, r.c, z);
    } else {
      FrameAt(r.c);
      IndexIn(q - 61, 0);
      if r.n < 20 {
        ShortStart(r);
        assert false;
      }
      FirstPart(r, q);
      EndLabel(r, q);
      if z < q {
        Consecutive(r, r.c, z);
      } else {
        IndexIn(q, z - q);
        Consecutive(r, z, r.d - 1);
      }
    }
  }

  // ---- From the stream to the gathered text ---------------------------------------

  ghost function LabelsOf(at: seq<int>, from: seq<int>): (l: seq<int>)
    requires forall z :: 0 <= z < |from| ==> 0 <= from[z] < |at|
    ensures |l| == |from| && forall z :: 0 <= z < |l| ==> l[z] == at[from[z]]
  {
    seq<int>(|from|, z requires 0 <= z < |from| => at[from[z]])
  }

  // The first bytes of a frame either go on from where it starts or belong to
  // an answer that starts among them.
  lemma {:induction false} HeadWalk(p: seq<Byte>, text: seq<Byte>, banner: seq<Byte>, g: nat, at: seq<int>, y: nat,
                                    i: nat)
    requires Stream(p, text, banner, g, at) && |text| >= 73 && Index(y) == 0 && g <= y && i <= 12 && y + i < |p|
    ensures at[y + i] == at[y] + i || at[y + i] == at[y] + i - |text| || 0 <= at[y + i] <= i + 3
    ensures 0 <= at[y + i] < |text|
  {
    hide Index, WholeAt;
    if i > 0 {
      HeadWalk(p, text, banner, g, at, y, i - 1);
      assert StepsAt(at, y + i, |text|);
      IndexIn(y, i);
    }
  }

  lemma {:induction false} TailWalk(p: seq<Byte>, text: seq<Byte>, banner: seq<Byte>, g: nat, at: seq<int>, y: nat,
                                    i: nat)
    requires Stream(p, text, banner, g, at) && |text| >= 73 && Index(y) == 0 && g <= y && 12 <= i <= 61 && y + i < |p|
    ensures at[y + i] == at[y + 12] + (i - 12) || at[y + i] == at[y + 12] + (i - 12) - |text|
    ensures 0 <= at[y + 12] < |text| && 0 <= at[y + i] < |text|
  {
    hide Index, WholeAt;
    if i > 12 {
      TailWalk(p, text, banner, g, at, y, i - 1);
      assert StepsAt(at, y + i, |text|);
      IndexIn(y, i);
    }
  }

  // The frames behind one that starts with a line end.
  lemma {:induction false} FrameStarts(p: seq<Byte>, text: seq<Byte>, banner: seq<Byte>, g: nat, at: seq<int>,
                                       y: nat, i: nat)
    requires Stream(p, text, banner, g, at) && 73 <= |text| <= 75 && Index(y) == 0 && g <= y
    requires i <= 3 && y + 61 * i < |p| && at[y] == |text| - 1
    ensures Index(y + 61 * i) == 0
    ensures i > 0 ==> 49 - 14 * (i - 1) <= at[y + 61 * i] <= 64
  {
    hide Index, Stream;
    if i > 0 {
      FrameStarts(p, text, banner, g, at, y, i - 1);
      var x := y + 61 * (i - 1);
      IndexIn(x, 0);
      StreamSize(p, text, banner, g, at);
      HeadWalk(p, text, banner, g, at, x, 12);
      TailWalk(p, text, banner, g, at, x, 61);
    }
  }

  lemma StreamSize(p: seq<Byte>, text: seq<Byte>, banner: seq<Byte>, g: nat, at: seq<int>)
    requires Stream(p, text, banner, g, at)
    ensures |at| == |p| <= CAPACITY && (g == 0 || g == |banner| == 54 <= |p|)
    ensures forall x :: g <= x < |p| ==> 0 <= at[x] < |text| && p[x] == text[at[x]]
  {
  }

  ghost predicate PickedBehind(p: seq<Byte>, text: seq<Byte>, banner: seq<Byte>, g: nat, at: seq<int>, s: seq<Byte>,
                               from: seq<int>)
  {
    Stream(p, text, banner, g, at) && Picked(p, s, from) && s != [] && (g == 0 || from[0] >= 61)
  }

  lemma PickedAt(p: seq<Byte>, text: seq<Byte>, banner: seq<Byte>, g: nat, at: seq<int>, s: seq<Byte>,
                 from: seq<int>, z: nat)
    requires PickedBehind(p, text, banner, g, at, s, from) && z < |s|
    ensures |from| == |s| && |at| == |p| <= CAPACITY
    ensures g <= from[z] < |p| && s[z] == p[from[z]] == text[at[from[z]]] && Index(from[z]) == Index(z)
    ensures 0 <= at[from[z]] < |text|
    ensures z > 0 ==> FollowsAt(from, z)
    ensures from[z] > g ==> StepsAt(at, from[z], |text|)
    ensures WholeAt(at, from[z])
  {
    hide Index, FollowsAt, WholeAt, StepsAt;
    Ascending(p, s, from, 0, z);
  }

  lemma LabelSteps(p: seq<Byte>, text: seq<Byte>, banner: seq<Byte>, g: nat, at: seq<int>, s: seq<Byte>,
                   from: seq<int>, z: nat)
    requires PickedBehind(p, text, banner, g, at, s, from) && 0 < z < |s| && Index(z) != 0
    ensures |from| == |s| && 0 <= from[z - 1] < |at| && 0 <= from[z] < |at|
    ensures Step(at[from[z - 1]], at[from[z]], z, |text|)
  {
    hide Index, PickedBehind, WholeAt;
    PickedAt(p, text, banner, g, at, s, from, z - 1);
    PickedAt(p, text, banner, g, at, s, from, z);
  }

  lemma LabelWhole(p: seq<Byte>, text: seq<Byte>, banner: seq<Byte>, g: nat, at: seq<int>, s: seq<Byte>,
                   from: seq<int>, z: nat, k: nat)
    requires PickedBehind(p, text, banner, g, at, s, from) && z < |s| && k < Min(8, 61 - Index(z))
    requires |from| == |s| && 0 <= from[z] < |at| && at[from[z]] == 0
    ensures z + k < |s| && 0 <= from[z + k] < |at| && at[from[z + k]] == k
  {
    hide Index, FollowsAt, StepsAt;
    PickedAt(p, text, banner, g, at, s, from, z);
    if |s| <= z + k {
      SameFrame(p, s, from, z, |s| - 1);
      FrameAt(z);
      IndexIn(z - Index(z), Index(z) + (|s| - z));
      assert false;
    }
    SameFrame(p, s, from, z, z + k);
    assert at[from[z] + k] == k;
  }

  lemma LabelNotShifted(p: seq<Byte>, text: seq<Byte>, banner: seq<Byte>, g: nat, at: seq<int>, s: seq<Byte>,
                        from: seq<int>, z: nat)
    requires PickedBehind(p, text, banner, g, at, s, from) && 0 < z < |s| && Index(z) == 0 && 73 <= |text| <= 75
    requires |from| == |s| && 0 <= from[z - 1] < |at| && 0 <= from[z] < |at| && at[from[z - 1]] == |text| - 2
    ensures !(10 <= at[from[z]] <= 12)
  {
    assert Stream(p, text, banner, g, at);
    hide Index, WholeAt, PickedBehind, Stream;
    PickedAt(p, text, banner, g, at, s, from, z - 1);
    PickedAt(p, text, banner, g, at, s, from, z);
    var y := from[z - 1] + 1;
    IndexNext(z - 1, from[z - 1]);
    IndexNext(from[z - 1], z - 1);
    FrameAt(y);
    var i := FramesApart(y, from[z]);
    BehindStep(p, text, banner, g, at, y);
    FrameStarts(p, text, banner, g, at, y, i);
  }

  lemma BehindStep(p: seq<Byte>, text: seq<Byte>, banner: seq<Byte>, g: nat, at: seq<int>, y: nat)
    requires Stream(p, text, banner, g, at) && g < y < |p|
    ensures StepsAt(at, y, |text|)
  {
  }

  // The gathered text is labelled by the labels of where its bytes come from.
  lemma PickedLabels(p: seq<Byte>, text: seq<Byte>, banner: seq<Byte>, g: nat, at: seq<int>, s: seq<Byte>,
                     from: seq<int>)
    requires PickedBehind(p, text, banner, g, at, s, from) && 13 <= |text| <= 75
    requires forall z :: 0 <= z < |from| ==> 0 <= from[z] < |at|
    ensures Labelled(s, text, LabelsOf(at, from))
  {
    hide Index, FollowsAt, StepsAt, WholeAt, Step;
    var l := LabelsOf(at, from);
    PickedAt(p, text, banner, g, at, s, from, |s| - 1);
    hide PickedBehind;
    forall z | 0 <= z < |s|
      ensures 0 <= l[z] < |text| && s[z] == text[l[z]] && WholeInFrame(l, z)
    {
      PickedAt(p, text, banner, g, at, s, from, z);
      if l[z] == 0 {
        forall y | z <= y < z + Min(8, 61 - Index(z))
          ensures y < |l| && l[y] == y - z
        {
          LabelWhole(p, text, banner, g, at, s, from, z, y - z);
        }
        LabelWhole(p, text, banner, g, at, s, from, z, Min(8, 61 - Index(z)) - 1);
      }
    }
    forall z | 0 < z < |s|
      ensures InFrame(l, z, |text|) && NotShifted(l, z, |text|)
    {
      if Index(z) != 0 {
        LabelSteps(p, text, banner, g, at, s, from, z);
      } else if |text| >= 73 && l[z - 1] == |text| - 2 {
        LabelNotShifted(p, text, banner, g, at, s, from, z);
      }
    }
    if Index(|s|) != 0 {
      LabelLast(p, text, banner, g, at, s, from);
    }
  }

  lemma LabelLast(p: seq<Byte>, text: seq<Byte>, banner: seq<Byte>, g: nat, at: seq<int>, s: seq<Byte>, from: seq<int>)
    requires PickedBehind(p, text, banner, g, at, s, from) && Index(|s|) != 0
    ensures |from| == |s| && 0 <= from[|s| - 1] < |at|
    ensures at[from[|s| - 1]] == |text| - 1 || 5 <= Index(|s|) <= 12
  {
    hide Index, WholeAt, StepsAt, FollowsAt;
    PickedAt(p, text, banner, g, at, s, from, |s| - 1);
    IndexNext(|p| - 1, |s| - 1);
  }

  // ---- What an accepted answer means -----------------------------------------------

  // However many earlier answers to the same read are still waiting, cut short
  // or not, and whichever frames of them are lost: in a line of two words whose
  // second word is as long as the data, it is the data, and after a full block
  // nothing is left waiting.
  lemma AcceptedIsRead(p: seq<Byte>, text: seq<Byte>, n: nat, date: seq<Byte>, time: seq<Byte>,
                       s: seq<Byte>, from: seq<int>, e: nat, a: nat, b: nat, c: nat, d: nat)
    requires IsAnswer(text, n) && |date| + |time| == 19 && Stale(p, text, BannerText(date, time))
    requires Picked(p, s, from) && LineAtEnd(s, e)
    requires TwoWords(s, a, b, c, d) && a + 7 <= b && d == c + 2 * n
    ensures s[c..d] == text[9..9 + 2 * n]
    ensures n == 32 ==> Drop(p, from[|s| - 1] / 61 + 1) == []
  {
    hide BannerText, IsAnswer, Index, FollowsAt, Stream, TwoWords;
    var banner := BannerText(date, time);
    var g, at :| Stream(p, text, banner, g, at);
    if g != 0 && from[0] < 61 {
      StartsWithBanner(p, text, banner, g, at, s, from);
      BannerManyWords(s, date, time, 0, a, b, c, d);
      assert false;
    }
    StreamSize(p, text, banner, g, at);
    AcceptedData(p, text, n, banner, g, at, s, from, e, a, b, c, d);
    if n == 32 {
      DropAll(p, |p| - 1);
    }
  }

  lemma AcceptedData(p: seq<Byte>, text: seq<Byte>, n: nat, banner: seq<Byte>, g: nat, at: seq<int>, s: seq<Byte>,
                     from: seq<int>,
                     e: nat, a: nat, b: nat, c: nat, d: nat)
    requires IsAnswer(text, n) && PickedBehind(p, text, banner, g, at, s, from) && LineAtEnd(s, e)
    requires TwoWords(s, a, b, c, d) && a + 7 <= b && d == c + 2 * n
    ensures s[c..d] == text[9..9 + 2 * n]
    ensures n == 32 ==> Index(|s|) != 0
  {
    hide Index, FollowsAt, PickedBehind, Labelled, Solid, Blank;
    forall z | 0 <= z < |s|
      ensures |from| == |s| && 0 <= from[z] < |at|
    {
      PickedAt(p, text, banner, g, at, s, from, z);
    }
    assert |from| == |s| by {
      PickedAt(p, text, banner, g, at, s, from, 0);
    }
    PickedLabels(p, text, banner, g, at, s, from);
    var r := Reading(s, text, n, LabelsOf(at, from), e, a, b, c, d);
    forall z | c <= z < d
      ensures s[z] == text[9 + (z - c)]
    {
      WordLabels(r, z);
      PickedAt(p, text, banner, g, at, s, from, z);
    }
    WordLabels(r, c);
  }

  lemma DropAll(p: seq<Byte>, x: nat)
    requires x == |p| - 1
    ensures Drop(p, x / 61 + 1) == []
  {
  }

  lemma StartsWithBanner(p: seq<Byte>, text: seq<Byte>, banner: seq<Byte>, g: nat, at: seq<int>, s: seq<Byte>,
                         from: seq<int>)
    requires Stream(p, text, banner, g, at) && Picked(p, s, from) && s != [] && g != 0 && from[0] < 61
    ensures |s| >= 54 && s[0..54] == banner
  {
    assert from[0] == 0;
    if |s| < 54 {
      SameFrame(p, s, from, 0, |s| - 1);
      assert false;
    }
    forall z | 0 <= z < 54
      ensures s[z] == banner[z]
    {
      SameFrame(p, s, from, 0, z);
      assert p[..54][z] == p[z];
    }
  }

  // A line with a banner in it is no answer.
  lemma BannerIsNoAnswer(y: seq<Byte>, date: seq<Byte>, time: seq<Byte>)
    ensures |Fields(Strip(y + BannerText(date, time)))| != 2
  {
    hide Fields, Strip, BannerText;
    var s := y + BannerText(date, time);
    if |Fields(Strip(s))| == 2 {
      var a, b, c, d := WordsOfLine(s);
      BannerManyWords(s, date, time, |y|, a, b, c, d);
    }
  }
}
