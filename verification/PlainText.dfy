/** PlainTextMessageIOGateway over a byte stream, and the Telnet filter in front of it. */
module PlainTextLines {
  import opened Bytes
  import opened Messages
  import opened Unflattening

  const CR: Byte := 13
  const LF: Byte := 10

  predicate IsBreak(b: Byte) {
    b == CR || b == LF
  }

  predicate NoBreaks(s: Buffer) {
    forall i :: 0 <= i < |s| ==> !IsBreak(s[i])
  }

  // ---- what a text consists of ----

  datatype Split = Split(lines: seq<Buffer>, rest: Buffer)

  function FirstBreak(s: Buffer): (k: nat)
    ensures k <= |s| && NoBreaks(s[..k]) && (k < |s| ==> IsBreak(s[k]))
  {
    if |s| == 0 || IsBreak(s[0]) then 0
    else
      var k := FirstBreak(s[1..]);
      assert s[..k + 1] == [s[0]] + s[1..][..k];
      k + 1
  }

  /** A text split at every CR, LF or CRLF, with the unterminated rest. */
  function SplitLines(s: Buffer): Split
    decreases |s|
  {
    var k := FirstBreak(s);
    if k == |s| then Split([], s)
    else
      var skip := if s[k] == CR && k + 1 < |s| && s[k + 1] == LF then 2 else 1;
      var r := SplitLines(s[k + skip..]);
      Split([s[..k]] + r.lines, r.rest)
  }

  // ---- byte by byte ----

  /** The CR flag, the text of the current line, and the lines delivered so far. */
  datatype Reader = Reader(prevCR: bool, pending: Buffer, lines: seq<Buffer>)

  function Step(r: Reader, b: Byte): Reader {
    if b == CR || (b == LF && !r.prevCR) then Reader(b == CR, [], r.lines + [r.pending])
    else if b == LF then r.(prevCR := false)
    else r.(prevCR := false, pending := r.pending + [b])
  }

  function Feed(r: Reader, s: Buffer): Reader
    decreases |s|
  {
    if |s| == 0 then r else Feed(Step(r, s[0]), s[1..])
  }

  lemma {:induction false} FeedAppend(r: Reader, a: Buffer, b: Buffer)
    ensures Feed(r, a + b) == Feed(Feed(r, a), b)
    decreases |a|
  {
    hide Step;
    if |a| == 0 {
      assert a + b == b;
    } else {
      FeedAppend(Step(r, a[0]), a[1..], b);
      assert (a + b)[1..] == a[1..] + b;
    }
  }

  lemma FeedNothing(r: Reader)
    ensures Feed(r, []) == r
  {
  }

  lemma FeedOne(r: Reader, b: Byte)
    ensures Feed(r, [b]) == Step(r, b)
  {
    hide Step;
    FeedNothing(Step(r, b));
  }

  lemma {:induction false} FeedText(r: Reader, s: Buffer)
    requires NoBreaks(s)
    ensures Feed(r, s) == if s == [] then r else Reader(false, r.pending + s, r.lines)
    decreases |s|
  {
    if |s| > 0 {
      FeedText(Step(r, s[0]), s[1..]);
      assert r.pending + s == (r.pending + [s[0]]) + s[1..];
    }
  }

  lemma FirstBreakAt(s: Buffer, k: nat)
    requires k <= |s| && NoBreaks(s[..k]) && (k < |s| ==> IsBreak(s[k]))
    ensures FirstBreak(s) == k
  {
    var j := FirstBreak(s);
    assert forall i :: 0 <= i < k ==> s[i] == s[..k][i];
    assert forall i :: 0 <= i < j ==> s[i] == s[..j][i];
  }

  /** A line feed right after a carriage return belongs to the previous line end. */
  function AfterCR(prevCR: bool, s: Buffer): Buffer {
    if prevCR && |s| > 0 && s[0] == LF then s[1..] else s
  }

  /** The byte-by-byte reader computes the split of everything it has seen. */
  lemma {:induction false} FeedSplits(prevCR: bool, lines: seq<Buffer>, s: Buffer)
    ensures var sp := SplitLines(AfterCR(prevCR, s));
      var r := Feed(Reader(prevCR, [], lines), s);
      r.lines == lines + sp.lines && r.pending == sp.rest && (r.prevCR ==> r.pending == [])
    decreases |s|
  {
    hide SplitLines, Feed, Step, FirstBreak;
    var r := Reader(prevCR, [], lines);
    if prevCR && |s| > 0 && s[0] == LF {
      assert s == [LF] + s[1..];
      FeedAppend(r, [LF], s[1..]);
      FeedOne(r, LF);
      StepAtBreak(r, LF);
      FeedSplits(false, lines, s[1..]);
    } else {
      var k := FirstBreak(s);
      if k == |s| {
        FeedText(r, s);
        assert s[..k] == s && [] + s == s;
        NoBreakSplit(s);
        assert lines + [] == lines;
      } else {
        FeedToBreak(prevCR, lines, s);
        FeedSplits(s[k] == CR, lines + [s[..k]], s[k + 1..]);
        BreakSplit(s);
        var sp := SplitLines(AfterCR(s[k] == CR, s[k + 1..]));
        assert lines + [s[..k]] + sp.lines == lines + ([s[..k]] + sp.lines);
      }
    }
  }

  /** The first line is complete. */
  lemma FeedToBreak(prevCR: bool, lines: seq<Buffer>, s: Buffer)
    requires FirstBreak(s) < |s| && !(prevCR && s[0] == LF)
    ensures var k := FirstBreak(s);
      Feed(Reader(prevCR, [], lines), s) == Feed(Reader(s[k] == CR, [], lines + [s[..k]]), s[k + 1..])
  {
    hide Feed, FirstBreak, NoBreaks, IsBreak;
    var k := FirstBreak(s);
    SplitAround(s, k);
    TextThenBreak(prevCR, lines, s[..k], s[k], s[k + 1..]);
  }

  lemma TextThenBreak(prevCR: bool, lines: seq<Buffer>, text: Buffer, b: Byte, rest: Buffer)
    requires NoBreaks(text) && IsBreak(b) && !(prevCR && text == [] && b == LF)
    ensures Feed(Reader(prevCR, [], lines), text + ([b] + rest)) == Feed(Reader(b == CR, [], lines + [text]), rest)
  {
    hide Feed, Step, NoBreaks, IsBreak;
    var r := Reader(prevCR, [], lines);
    FeedAround(r, text, b, rest);
    FeedText(r, text);
    assert [] + text == text;
    StepAtBreak(Feed(r, text), b);
  }

  lemma SplitAround(s: Buffer, k: nat)
    requires k < |s|
    ensures s == s[..k] + ([s[k]] + s[k + 1..])
  {
  }

  lemma FeedAround(r: Reader, a: Buffer, b: Byte, c: Buffer)
    ensures Feed(r, a + ([b] + c)) == Feed(Step(Feed(r, a), b), c)
  {
    hide Feed, Step;
    FeedAppend(r, a, [b] + c);
    FeedAppend(Feed(r, a), [b], c);
    FeedOne(Feed(r, a), b);
  }

  lemma StepAtBreak(r: Reader, b: Byte)
    requires IsBreak(b)
    ensures Step(r, b) ==
      if b == LF && r.prevCR then r.(prevCR := false) else Reader(b == CR, [], r.lines + [r.pending])
  {
  }

  lemma NoBreakSplit(s: Buffer)
    requires FirstBreak(s) == |s|
    ensures SplitLines(s) == Split([], s)
  {
  }

  lemma BreakSplit(s: Buffer)
    requires FirstBreak(s) < |s|
    ensures var k := FirstBreak(s);
      var sp := SplitLines(AfterCR(s[k] == CR, s[k + 1..]));
      SplitLines(s) == Split([s[..k]] + sp.lines, sp.rest)
  {
    var k := FirstBreak(s);
    if k + 1 < |s| { assert s[k + 1..][1..] == s[k + 2..]; }
  }

  // ---- sent lines come back ----

  function LinesBytes(lines: seq<Buffer>, eol: Buffer): Buffer {
    if |lines| == 0 then [] else (lines[0] + eol) + LinesBytes(lines[1..], eol)
  }

  lemma OneLine(l: Buffer, eol: Buffer, rest: Buffer)
    requires eol in {[CR], [LF], [CR, LF]} && NoBreaks(l) && (eol == [CR] && |rest| > 0 ==> rest[0] != LF)
    ensures SplitLines((l + eol) + rest) == Split([l] + SplitLines(rest).lines, SplitLines(rest).rest)
  {
    hide SplitLines, FirstBreak;
    var s := (l + eol) + rest;
    assert s[..|l|] == l && s[|l|] == eol[0];
    FirstBreakAt(s, |l|);
    BreakSplit(s);
    if eol == [CR, LF] {
      assert s[|l| + 1..] == [LF] + rest;
      assert ([LF] + rest)[1..] == rest;
    } else {
      assert s[|l| + 1..] == rest;
    }
  }

  /** With any of the three line ends, lines without breaks survive. */
  lemma {:induction false} SentLinesComeBack(lines: seq<Buffer>, eol: Buffer)
    requires eol in {[CR], [LF], [CR, LF]} && forall l <- lines :: NoBreaks(l)
    ensures SplitLines(LinesBytes(lines, eol)) == Split(lines, [])
    decreases |lines|
  {
    hide SplitLines;
    if |lines| == 0 {
      NoBreakSplit([]);
    } else {
      SentLinesComeBack(lines[1..], eol);
      FirstByte(lines[1..], eol);
      OneLine(lines[0], eol, LinesBytes(lines[1..], eol));
      assert lines == [lines[0]] + lines[1..];
    }
  }

  lemma FirstByte(lines: seq<Buffer>, eol: Buffer)
    requires eol in {[CR], [LF], [CR, LF]} && forall l <- lines :: NoBreaks(l)
    ensures eol == [CR] && |LinesBytes(lines, eol)| > 0 ==> LinesBytes(lines, eol)[0] != LF
  {
    if |lines| > 0 {
      assert lines[0] in lines;
      assert LinesBytes(lines, eol)[0] == if |lines[0]| > 0 then lines[0][0] else eol[0];
    }
  }

  // ---- bytes as C strings ----

  /** Within one read a NUL hides what follows it, up to the next line break. */
  datatype InRead = InRead(r: Reader, hidden: bool)

  function StepC(c: InRead, b: Byte): InRead {
    if IsBreak(b) then InRead(Step(c.r, b), false)
    else if c.hidden || b == 0 then InRead(c.r.(prevCR := false), true)
    else InRead(Step(c.r, b), false)
  }

  function FeedFrom(c: InRead, s: Buffer): InRead
    decreases |s|
  {
    if |s| == 0 then c else StepC(FeedFrom(c, s[..|s| - 1]), s[|s| - 1])
  }

  /** One read. */
  function FeedC(r: Reader, s: Buffer): InRead {
    FeedFrom(InRead(r, false), s)
  }

  lemma FeedCStep(r: Reader, s: Buffer, i: nat)
    requires i < |s|
    ensures FeedC(r, s[..i + 1]) == StepC(FeedC(r, s[..i]), s[i])
  {
    assert s[..i + 1][..i] == s[..i];
  }

  /** On NUL-free text a read is no more than its bytes. */
  lemma {:induction false} NulFreeRead(r: Reader, s: Buffer)
    requires NoNul(s)
    ensures FeedC(r, s) == InRead(Feed(r, s), false)
    decreases |s|
  {
    hide Step, Feed;
    if |s| == 0 {
      FeedNothing(r);
    } else {
      var n := |s| - 1;
      NulFreeRead(r, s[..n]);
      FeedAppend(r, s[..n], [s[n]]);
      FeedOne(Feed(r, s[..n]), s[n]);
      assert s == s[..n] + [s[n]];
    }
  }

  /** A series of reads. */
  function FeedReads(r: Reader, chunks: seq<Buffer>): Reader
    decreases |chunks|
  {
    if |chunks| == 0 then r else FeedReads(FeedC(r, chunks[0]).r, chunks[1..])
  }

  lemma {:induction false} ReadsDoNotMatter(r: Reader, chunks: seq<Buffer>)
    requires forall c <- chunks :: NoNul(c)
    ensures FeedReads(r, chunks) == Feed(r, Concat(chunks))
    decreases |chunks|
  {
    hide Feed, FeedC, NoNul;
    if |chunks| == 0 {
      FeedNothing(r);
    } else {
      NulFreeRead(r, chunks[0]);
      ReadsDoNotMatter(Feed(r, chunks[0]), chunks[1..]);
      FeedAppend(r, chunks[0], Concat(chunks[1..]));
    }
  }

  /** Under every split of NUL-free text into reads, even between a CR and its LF, the lines and the pending text are
      the split of the stream. */
  lemma LinesAreTheSplit(chunks: seq<Buffer>)
    requires forall c <- chunks :: NoNul(c)
    ensures var r := FeedReads(Reader(false, [], []), chunks);
      Split(r.lines, r.pending) == SplitLines(Concat(chunks))
  {
    hide SplitLines, Feed, FeedReads, NoNul;
    ReadsDoNotMatter(Reader(false, [], []), chunks);
    FeedSplits(false, [], Concat(chunks));
  }

  // ---- exactly when two reads are as good as one ----

  lemma {:induction false} FeedFromAppend(c: InRead, a: Buffer, b: Buffer)
    ensures FeedFrom(c, a + b) == FeedFrom(FeedFrom(c, a), b)
    decreases |b|
  {
    hide StepC;
    if |b| == 0 {
      assert a + b == a;
    } else {
      var n := |b| - 1;
      FeedFromAppend(c, a, b[..n]);
      assert (a + b)[..|a| + n] == a + b[..n];
    }
  }

  lemma FeedFromOne(c: InRead, b: Byte)
    ensures FeedFrom(c, [b]) == StepC(c, b)
  {
    hide StepC;
    assert [b][..0] == [];
    assert FeedFrom(c, []) == c;
  }

  lemma {:induction false} HiddenMeansNoCR(r: Reader, s: Buffer)
    ensures FeedC(r, s).hidden ==> !FeedC(r, s).r.prevCR
    decreases |s|
  {
  }

  /** Hidden text leaves the reader alone. */
  lemma {:induction false} HiddenText(c: InRead, s: Buffer)
    requires c.hidden && !c.r.prevCR && NoBreaks(s)
    ensures FeedFrom(c, s) == c
    decreases |s|
  {
    if |s| > 0 { HiddenText(c, s[..|s| - 1]); }
  }

  /** Other text is taken as a C string. */
  lemma {:induction false} VisibleText(r: Reader, s: Buffer)
    requires !r.prevCR && NoBreaks(s)
    ensures FeedC(r, s) == Here(r, s)
    decreases |s|
  {
    hide StepC, Here;
    if |s| == 0 {
      HereAtFirst(r);
    } else {
      var n := |s| - 1;
      VisibleText(r, s[..n]);
      HereText(r, s[..n], s[n]);
      assert s == s[..n] + [s[n]];
    }
  }

  lemma {:induction false} LinesOnlyGrow(c: InRead, s: Buffer)
    ensures c.r.lines <= FeedFrom(c, s).r.lines
    decreases |s|
  {
    if |s| > 0 { LinesOnlyGrow(c, s[..|s| - 1]); }
  }

  /** At a line break it no longer matters what was hidden, but lines that differ go on to differ. */
  lemma AtBreak(r: Reader, r': Reader, h: bool, h': bool, s: Buffer)
    requires !r.prevCR && !r'.prevCR && r.lines == r'.lines && |s| > 0 && IsBreak(s[0])
    ensures FeedFrom(InRead(r, h), s).r == FeedFrom(InRead(r', h'), s).r <==> r.pending == r'.pending
  {
    hide FeedFrom;
    var rest := s[1..];
    assert s == [s[0]] + rest;
    var c, c' := StepC(InRead(r, h), s[0]), StepC(InRead(r', h'), s[0]);
    FeedFromAppend(InRead(r, h), [s[0]], rest);
    FeedFromOne(InRead(r, h), s[0]);
    FeedFromAppend(InRead(r', h'), [s[0]], rest);
    FeedFromOne(InRead(r', h'), s[0]);
    assert c.r.lines == r.lines + [r.pending] && c'.r.lines == r.lines + [r'.pending];
    assert c.r.lines[|r.lines|] == r.pending && c'.r.lines[|r.lines|] == r'.pending;
    LinesOnlyGrow(c, rest);
    LinesOnlyGrow(c', rest);
  }

  function AfterLastBreak(s: Buffer): Buffer
    decreases |s|
  {
    if |s| == 0 || IsBreak(s[|s| - 1]) then [] else AfterLastBreak(s[..|s| - 1]) + [s[|s| - 1]]
  }

  lemma NoNulSnoc(s: Buffer, b: Byte)
    ensures NoNul(s + [b]) <==> NoNul(s) && b != 0
  {
    assert (s + [b])[|s|] == b;
    assert forall i :: 0 <= i < |s| ==> (s + [b])[i] == s[i];
  }

  /** Whether text is being hidden shows in the bytes after the last line break. */
  lemma {:induction false} HiddenIff(r: Reader, s: Buffer)
    ensures FeedC(r, s).hidden <==> !NoNul(AfterLastBreak(s))
    decreases |s|
  {
    hide Step;
    if |s| > 0 {
      var n := |s| - 1;
      HiddenIff(r, s[..n]);
      NoNulSnoc(AfterLastBreak(s[..n]), s[n]);
    }
  }

  /** Reading a and b in one go or in two comes to the same exactly when no NUL follows the last line break of a, or b
      shows no text before its first line break. */
  lemma TwoReadsAreOneIff(r: Reader, a: Buffer, b: Buffer)
    ensures FeedC(r, a + b).r == FeedC(FeedC(r, a).r, b).r <==>
      NoNul(AfterLastBreak(a)) || CText(b[..FirstBreak(b)]) == []
  {
    HiddenIff(r, a);
    TwoReadsAreOneUnlessHidden(r, a, b);
  }

  lemma TwoReadsAreOneUnlessHidden(r: Reader, a: Buffer, b: Buffer)
    ensures FeedC(r, a + b).r == FeedC(FeedC(r, a).r, b).r <==> !FeedC(r, a).hidden || CText(b[..FirstBreak(b)]) == []
  {
    hide FeedFrom, FirstBreak, CText, StepC;
    var c := FeedC(r, a);
    FeedFromAppend(InRead(r, false), a, b);
    if c.hidden {
      HiddenMeansNoCR(r, a);
      var k := FirstBreak(b);
      var text, rest := b[..k], b[k..];
      assert b == text + rest;
      FeedFromAppend(c, text, rest);
      FeedFromAppend(InRead(c.r, false), text, rest);
      HiddenText(c, text);
      VisibleText(c.r, text);
      var r' := Here(c.r, text).r;
      assert r'.pending == c.r.pending + CText(text);
      assert r'.pending == c.r.pending <==> CText(text) == [];
      if k == |b| {
        FeedFromNothing(c);
        FeedFromNothing(Here(c.r, text));
      } else {
        AtBreak(c.r, r', c.hidden, Here(c.r, text).hidden, rest);
      }
    }
  }

  lemma FeedFromNothing(c: InRead)
    ensures FeedFrom(c, []) == c
  {
  }

  /** So chunking does matter in the presence of NULs: a NUL hides less when the read ends right after it. */
  lemma NulsBreakChunkInvariance(r: Reader)
    ensures FeedC(r, [65, 0] + [66]).r != FeedC(FeedC(r, [65, 0]).r, [66]).r
  {
    hide FeedC, FirstBreak, FirstNul;
    TwoReadsAreOneIff(r, [65, 0], [66]);
    assert AfterLastBreak([65, 0])[|AfterLastBreak([65, 0])| - 1] == 0;
    FirstBreakAt([66], 1);
    assert [66][..1] == [66];
    NulFreeText([66]);
  }

  lemma NulFreeText(s: Buffer)
    requires NoNul(s)
    ensures FirstNul(s) == |s| && CText(s) == s
  {
    assert s[..|s|] == s;
  }

  function CText(s: Buffer): Buffer {
    s[..FirstNul(s)]
  }

  lemma {:induction false} FirstNulSnoc(s: Buffer, b: Byte)
    ensures FirstNul(s + [b]) == if FirstNul(s) < |s| then FirstNul(s) else if b == 0 then |s| else |s| + 1
    decreases |s|
  {
    if |s| == 0 {
      assert s + [b] == [b];
      assert [b][1..] == [];
    } else if s[0] != 0 {
      FirstNulSnoc(s[1..], b);
      assert (s + [b])[1..] == s[1..] + [b];
    }
  }

  lemma CTextSnoc(s: Buffer, b: Byte)
    ensures CText(s + [b]) == if FirstNul(s) < |s| || b == 0 then CText(s) else CText(s) + [b]
    ensures FirstNul(s + [b]) < |s| + 1 <==> FirstNul(s) < |s| || b == 0
  {
    hide FirstNul;
    FirstNulSnoc(s, b);
    var t, k := s + [b], FirstNul(s);
    assert t[..k] == s[..k] && t[..|s|] == s == s[..|s|] && t[..|s| + 1] == t;
  }

  /** The reader with a segment of the current read that has not been looked at as a C string yet. */
  function Here(r: Reader, seg: Buffer): InRead {
    InRead(r.(pending := r.pending + CText(seg)), FirstNul(seg) < |seg|)
  }

  lemma HereAtFirst(r: Reader)
    ensures FeedC(r, []) == Here(r, [])
  {
    assert r.pending + [] == r.pending;
  }

  lemma HereText(r: Reader, seg: Buffer, b: Byte)
    requires !IsBreak(b)
    ensures StepC(Here(r, seg), b) == Here(r.(prevCR := false), seg + [b])
  {
    hide FirstNul, CText;
    CTextSnoc(seg, b);
    assert r.pending + (CText(seg) + [b]) == (r.pending + CText(seg)) + [b];
  }

  lemma HereBreak(r: Reader, seg: Buffer, b: Byte)
    requires IsBreak(b) && (r.prevCR ==> seg == [])
    ensures StepC(Here(r, seg), b) ==
      Here(if b == CR || !r.prevCR then Reader(b == CR, [], r.lines + [r.pending + CText(seg)])
           else r.(prevCR := false), [])
  {
    hide CText;
    CTextNothing();
    assert r.pending + [] == r.pending;
  }

  lemma HereAtLast(r: Reader, seg: Buffer)
    ensures Here(r, seg).r == r.(pending := r.pending + CText(seg))
  {
  }

  lemma CTextNothing()
    ensures CText([]) == [] && FirstNul([]) == 0
  {
  }

  // ---- the gateway object ----

  const INPUT_BUFFER_SIZE: nat := 2047
  const MAX_RECURSION: nat := 1024

  function AllLines(msgs: seq<seq<Buffer>>, eol: Buffer): Buffer {
    if |msgs| == 0 then [] else LinesBytes(msgs[0], eol) + AllLines(msgs[1..], eol)
  }

  /** What is owed of the current Message: the rest of the current line and the lines after it. */
  function MessageOwed(m: seq<Buffer>, index: int, text: Buffer, offset: int, eol: Buffer): Buffer
    requires -1 <= index && index + 1 <= |m| && -1 <= offset <= |text|
  {
    (if offset < 0 then [] else text[offset..]) + LinesBytes(m[index + 1..], eol)
  }

  lemma OwedAtLineEnd(m: seq<Buffer>, index: int, text: Buffer, offset: int, eol: Buffer)
    requires -1 <= index && index + 1 <= |m| && (offset == -1 || offset == |text|)
    ensures index + 1 < |m| ==>
      MessageOwed(m, index + 1, m[index + 1] + eol, 0, eol)
      == MessageOwed(m, index, text, offset, eol)
    ensures index + 1 == |m| ==> MessageOwed(m, index, text, offset, eol) == []
  {
    var rest := m[index + 1..];
    if index + 1 < |m| {
      assert rest[0] == m[index + 1] && rest[1..] == m[index + 2..];
      assert (m[index + 1] + eol)[0..] == m[index + 1] + eol;
    }
    assert offset == |text| ==> text[offset..] == [];
    assert [] + LinesBytes(rest, eol) == LinesBytes(rest, eol);
  }

  lemma OwedAfterWrite(m: seq<Buffer>, index: int, text: Buffer, offset: nat, n: nat, eol: Buffer, rest: Buffer)
    requires -1 <= index && index + 1 <= |m| && offset + n <= |text|
    ensures text[offset..offset + n] + (MessageOwed(m, index, text, offset + n, eol) + rest)
         == MessageOwed(m, index, text, offset, eol) + rest
  {
    hide LinesBytes;
    var l := LinesBytes(m[index + 1..], eol);
    WriteFrom(text, offset, n, l + rest);
    assert (text[offset + n..] + l) + rest == text[offset + n..] + (l + rest);
    assert (text[offset..] + l) + rest == text[offset..] + (l + rest);
  }

  lemma OwedOfNewMessage(m: seq<Buffer>, text: Buffer, eol: Buffer)
    ensures MessageOwed(m, -1, text, -1, eol) == LinesBytes(m, eol)
  {
    hide LinesBytes;
    assert m[0..] == m;
    assert [] + LinesBytes(m, eol) == LinesBytes(m, eol);
  }

  /** Every line of a queued Message, and its end, takes one level of the output recursion. */
  function QueueLevels(msgs: seq<seq<Buffer>>): nat {
    if |msgs| == 0 then 0 else |msgs[0]| + 1 + QueueLevels(msgs[1..])
  }

  class PlainTextMessageIOGateway {
    const eolString: Buffer
    var outgoing: seq<seq<Buffer>>
    var currentSendingMessage: Option<seq<Buffer>>
    var currentSendLineIndex: int
    var currentSendText: Buffer
    var currentSendOffset: int
    var prevCharWasCarriageReturn: bool
    var incomingText: Buffer
    ghost var lines: seq<Buffer>
    ghost var enqueued: seq<seq<Buffer>>   // everything ever queued
    ghost var wire: Buffer                 // everything ever written

    ghost function Abs(): Reader
      reads this`prevCharWasCarriageReturn, this`incomingText, this`lines
    {
      Reader(prevCharWasCarriageReturn, incomingText, lines)
    }

    /** What has been written and what is owed make up the text of everything queued. */
    ghost predicate Valid()
      reads this`outgoing, this`currentSendingMessage, this`currentSendLineIndex, this`currentSendText,
        this`currentSendOffset, this`enqueued, this`wire
    {
      InRange() && wire + Unsent() == AllLines(enqueued, eolString)
    }

    ghost predicate InRange()
      reads this`currentSendingMessage, this`currentSendLineIndex, this`currentSendText, this`currentSendOffset
    {
      currentSendingMessage.Some? ==>
        && -1 <= currentSendLineIndex && currentSendLineIndex + 1 <= |currentSendingMessage.value|
        && -1 <= currentSendOffset <= |currentSendText|
    }

    /** The text that is queued and not yet written. */
    ghost function Unsent(): Buffer
      requires InRange()
      reads this`outgoing, this`currentSendingMessage, this`currentSendLineIndex, this`currentSendText,
        this`currentSendOffset
    {
      match currentSendingMessage
      case None => AllLines(outgoing, eolString)
      case Some(m) =>
        MessageOwed(m, currentSendLineIndex, currentSendText, currentSendOffset, eolString)
        + AllLines(outgoing, eolString)
    }

    /** How many levels of recursion it takes to write all of it. */
    ghost function Levels(): nat
      requires InRange()
      reads this`outgoing, this`currentSendingMessage, this`currentSendLineIndex, this`currentSendText,
        this`currentSendOffset
    {
      QueueLevels(outgoing)
      + match currentSendingMessage
        case None => 0
        case Some(m) => (if 0 <= currentSendOffset < |currentSendText| then 1 else 0) + |m| - currentSendLineIndex
    }

    constructor (eolString: Buffer)
      ensures Valid() && Abs() == Reader(false, [], []) && this.eolString == eolString && enqueued == [] && wire == []
    {
      this.eolString := eolString;
      outgoing, currentSendingMessage, currentSendText := [], None, [];
      currentSendLineIndex, currentSendOffset := -1, -1;
      prevCharWasCarriageReturn, incomingText, lines := false, [], [];
      enqueued, wire := [], [];
    }

    method AddIncomingText(s: Buffer)
      modifies this`incomingText, this`lines
      ensures lines == old(lines) + [old(incomingText) + s] && incomingText == []
    {
      lines := lines + [incomingText + s];
      incomingText := [];
    }

    /** One read of the stream, broken into lines where CRs and LFs are found. */
    method DoInput(available: Buffer, maxBytes: nat) returns (n: nat)
      modifies this`prevCharWasCarriageReturn, this`incomingText, this`lines
      ensures n <= |available| && n <= maxBytes && n <= INPUT_BUFFER_SIZE
      ensures n == |available| || n == maxBytes || n == INPUT_BUFFER_SIZE
      ensures Abs() == FeedC(old(Abs()), available[..n]).r
      ensures NoNul(available[..n]) ==> Abs() == Feed(old(Abs()), available[..n])
    {
      hide Feed, FeedC, StepC, CText, Here, NoNul;
      n := |available|;
      if maxBytes < n { n := maxBytes; }
      if INPUT_BUFFER_SIZE < n { n := INPUT_BUFFER_SIZE; }
      var buf := available[..n];
      var beginAt := 0;
      HereAtFirst(Abs());
      assert buf[..0] == buf[0..0] == [];
      for i := 0 to n
        invariant beginAt <= i && (prevCharWasCarriageReturn ==> beginAt == i)
        invariant FeedC(old(Abs()), buf[..i]) == Here(Abs(), buf[beginAt..i])
      {
        FeedCStep(old(Abs()), buf, i);
        var nextChar, seg := buf[i], buf[beginAt..i];
        if nextChar == CR || nextChar == LF {
          HereBreak(Abs(), seg, nextChar);
          if nextChar == CR || !prevCharWasCarriageReturn { AddIncomingText(CText(seg)); }
          beginAt := i + 1;
          assert buf[beginAt..i + 1] == [];
        } else {
          HereText(Abs(), seg, nextChar);
          assert buf[beginAt..i + 1] == seg + [nextChar];
        }
        prevCharWasCarriageReturn := nextChar == CR;
      }
      assert buf[..n] == buf && buf[beginAt..] == buf[beginAt..n];
      HereAtLast(Abs(), buf[beginAt..]);
      incomingText := incomingText + CText(buf[beginAt..]);
      if NoNul(buf) { NulFreeRead(old(Abs()), buf); }
    }

    method AddOutgoingMessage(m: seq<Buffer>)
      requires Valid()
      modifies this`outgoing, this`enqueued
      ensures Valid() && enqueued == old(enqueued) + [m] && Unsent() == old(Unsent()) + LinesBytes(m, eolString)
    {
      hide AllLines, LinesBytes, MessageOwed;
      ghost var owed := Unsent();
      AllLinesSnoc(outgoing, m, eolString);
      AllLinesSnoc(enqueued, m, eolString);
      outgoing, enqueued := outgoing + [m], enqueued + [m];
      assert Unsent() == owed + LinesBytes(m, eolString);
      assert wire + (owed + LinesBytes(m, eolString)) == (wire + owed) + LinesBytes(m, eolString);
    }

    /** Makes the next line of the current Message the text to be sent, or gives the Message up when it has no more
        lines. */
    method NextLine() returns (ok: bool)
      requires Valid() && currentSendingMessage.Some?
      requires currentSendOffset < 0 || currentSendOffset == |currentSendText|
      modifies this`currentSendLineIndex, this`currentSendText, this`currentSendOffset, this`currentSendingMessage
      ensures Valid() && Unsent() == old(Unsent())
      ensures ok ==> currentSendingMessage.Some? && currentSendOffset == 0 && |currentSendText| >= |eolString|
      ensures ok && eolString != [] ==> Levels() == old(Levels())
      ensures !ok ==> currentSendingMessage.None? && Levels() + 1 == old(Levels())
    {
      hide AllLines, MessageOwed;
      var msg := currentSendingMessage.value;
      OwedAtLineEnd(msg, currentSendLineIndex, currentSendText, currentSendOffset, eolString);
      assert [] + AllLines(outgoing, eolString) == AllLines(outgoing, eolString);
      currentSendLineIndex := currentSendLineIndex + 1;
      ok := currentSendLineIndex < |msg|;
      if ok {
        currentSendOffset, currentSendText := 0, msg[currentSendLineIndex] + eolString;
      } else {
        currentSendingMessage := None;
      }
    }

    /** The recursive output step; the recursion depth is bounded to protect the stack. */
    method DoOutputAux(maxBytes: nat, willingness: nat, recurseDepth: nat) returns (written: Buffer)
      requires Valid() && recurseDepth <= MAX_RECURSION
      modifies this`outgoing, this`currentSendLineIndex, this`currentSendText, this`currentSendOffset,
        this`currentSendingMessage, this`wire
      ensures Valid() && written + Unsent() == old(Unsent()) && wire == old(wire) + written
      ensures |written| <= maxBytes && |written| <= willingness
      ensures eolString != [] && |written| < maxBytes && |written| < willingness ==>
        Unsent() == [] || Levels() + (MAX_RECURSION - recurseDepth) <= old(Levels())
      decreases MAX_RECURSION - recurseDepth
    {
      hide LinesBytes, AllLines, Unsent, Levels;
      written := [];
      if recurseDepth >= MAX_RECURSION { return; }
      if currentSendingMessage.None? { NextMessage(); }
      if currentSendingMessage.None? { return; }
      if currentSendOffset < 0 || currentSendOffset >= |currentSendText| {
        var ok := NextLine();
        if !ok {
          written := DoOutputAux(maxBytes, willingness, recurseDepth + 1);
          return;
        }
      }
      var n := |currentSendText| - currentSendOffset;
      if maxBytes < n { n := maxBytes; }
      if willingness < n { n := willingness; }
      if n > 0 {
        var bytes := WriteSome(n);
        ghost var owed := Unsent();
        var rest := DoOutputAux(maxBytes - n, willingness - n, recurseDepth + 1);
        written := bytes + rest;
        WrittenThen(bytes, rest, Unsent(), old(Unsent()), owed);
      }
    }

    method NextMessage()
      requires Valid() && currentSendingMessage.None?
      modifies this`outgoing, this`currentSendLineIndex, this`currentSendOffset, this`currentSendingMessage
      ensures Valid() && Unsent() == old(Unsent()) && (currentSendingMessage.None? ==> Unsent() == [])
      ensures currentSendOffset == -1 && Levels() == old(Levels())
    {
      hide LinesBytes, MessageOwed;
      if |outgoing| > 0 {
        AllLinesCons(outgoing, eolString);
        OwedOfNewMessage(outgoing[0], currentSendText, eolString);
        currentSendingMessage, outgoing := Some(outgoing[0]), outgoing[1..];
      }
      currentSendLineIndex, currentSendOffset := -1, -1;
    }

    method WriteSome(n: nat) returns (bytes: Buffer)
      requires Valid() && currentSendingMessage.Some?
      requires 0 <= currentSendOffset && currentSendOffset + n <= |currentSendText|
      modifies this`currentSendOffset, this`wire
      ensures Valid() && |bytes| == n && bytes + Unsent() == old(Unsent()) && wire == old(wire) + bytes
      ensures 0 < n == |currentSendText| - old(currentSendOffset) ==> Levels() + 1 == old(Levels())
    {
      hide AllLines, MessageOwed;
      ghost var owed := Unsent();
      OwedAfterWrite(currentSendingMessage.value, currentSendLineIndex, currentSendText, currentSendOffset, n,
                     eolString, AllLines(outgoing, eolString));
      bytes := currentSendText[currentSendOffset..currentSendOffset + n];
      currentSendOffset := currentSendOffset + n;
      WrittenThen(wire, bytes, Unsent(), AllLines(enqueued, eolString), owed);
      wire := wire + bytes;
    }
  }

  lemma AllLinesCons(msgs: seq<seq<Buffer>>, eol: Buffer)
    requires |msgs| > 0
    ensures AllLines(msgs, eol) == LinesBytes(msgs[0], eol) + AllLines(msgs[1..], eol)
  {
  }

  lemma {:induction false} AllLinesSnoc(msgs: seq<seq<Buffer>>, m: seq<Buffer>, eol: Buffer)
    ensures AllLines(msgs + [m], eol) == AllLines(msgs, eol) + LinesBytes(m, eol)
    decreases |msgs|
  {
    hide LinesBytes;
    if |msgs| == 0 {
      assert msgs + [m] == [m];
      assert [m][1..] == [];
      assert AllLines([m], eol) == LinesBytes(m, eol) + AllLines([], eol);
    } else {
      AllLinesSnoc(msgs[1..], m, eol);
      assert (msgs + [m])[1..] == msgs[1..] + [m];
    }
  }

  function FlatLines(msgs: seq<seq<Buffer>>): seq<Buffer> {
    if |msgs| == 0 then [] else msgs[0] + FlatLines(msgs[1..])
  }

  lemma {:induction false} LinesBytesAppend(a: seq<Buffer>, b: seq<Buffer>, eol: Buffer)
    ensures LinesBytes(a + b, eol) == LinesBytes(a, eol) + LinesBytes(b, eol)
    decreases |a|
  {
    if |a| == 0 {
      assert a + b == b;
    } else {
      LinesBytesAppend(a[1..], b, eol);
      assert (a + b)[1..] == a[1..] + b;
    }
  }

  lemma {:induction false} AllLinesAreLines(msgs: seq<seq<Buffer>>, eol: Buffer)
    ensures AllLines(msgs, eol) == LinesBytes(FlatLines(msgs), eol)
    decreases |msgs|
  {
    hide LinesBytes;
    if |msgs| == 0 {
      NoLines(eol);
    } else {
      AllLinesAreLines(msgs[1..], eol);
      LinesBytesAppend(msgs[0], FlatLines(msgs[1..]), eol);
    }
  }

  lemma NoLines(eol: Buffer)
    ensures LinesBytes([], eol) == []
  {
  }

  /** Queued Messages, written with any of the three line ends and read in any pieces: every line comes back, in
      order. */
  lemma QueuedLinesComeBack(msgs: seq<seq<Buffer>>, eol: Buffer, chunks: seq<Buffer>)
    requires eol in {[CR], [LF], [CR, LF]}
    requires (forall l <- FlatLines(msgs) :: NoBreaks(l)) && (forall c <- chunks :: NoNul(c))
    requires Concat(chunks) == AllLines(msgs, eol)
    ensures var r := FeedReads(Reader(false, [], []), chunks); r.lines == FlatLines(msgs) && r.pending == []
  {
    hide FeedReads, SplitLines, LinesBytes, AllLines, FlatLines, NoBreaks, NoNul, Concat;
    AllLinesAreLines(msgs, eol);
    SentLinesComeBack(FlatLines(msgs), eol);
    LinesAreTheSplit(chunks);
  }

  // ---- the Telnet filter ----

  const IAC: Byte := 255
  const SB: Byte := 250
  const SE: Byte := 240

  datatype Telnet = Telnet(inSubnegotiation: bool, commandBytesLeft: nat)

  /** The effect of one byte on the filter's state. */
  function TelnetStep(t: Telnet, b: Byte): Telnet {
    var t1 := if b == IAC then t.(commandBytesLeft := 3)
              else if b == SB then t.(inSubnegotiation := true)
              else if b == SE then Telnet(false, 0)
              else t;
    if t1.commandBytesLeft > 0 then t1.(commandBytesLeft := t1.commandBytesLeft - 1) else t1
  }

  /** A byte is kept when it is 7-bit text outside commands and subnegotiations. */
  predicate Kept(t: Telnet, b: Byte) {
    b < 128 && t.commandBytesLeft == 0 && !t.inSubnegotiation
  }

  datatype Filtered = Filtered(state: Telnet, text: Buffer)

  function Filter(t: Telnet, s: Buffer): Filtered
    decreases |s|
  {
    if |s| == 0 then Filtered(t, [])
    else
      var n := |s| - 1;
      var f := Filter(t, s[..n]);
      Filtered(TelnetStep(f.state, s[n]), f.text + (if Kept(f.state, s[n]) then [s[n]] else []))
  }

  /** Filtering in chunks is filtering the whole stream. */
  lemma {:induction false} FilterAppend(t: Telnet, a: Buffer, b: Buffer)
    ensures Filter(t, a + b) ==
      (var f := Filter(t, a); var g := Filter(f.state, b); Filtered(g.state, f.text + g.text))
    decreases |b|
  {
    hide TelnetStep, Kept;
    if |b| == 0 {
      assert a + b == a;
      assert Filter(t, a).text + [] == Filter(t, a).text;
    } else {
      var n := |b| - 1;
      FilterAppend(t, a, b[..n]);
      assert (a + b)[..|a| + n] == a + b[..n];
    }
  }

  /** A Telnet command of three bytes disappears. */
  lemma CommandTakesThree(t: Telnet, a: Byte, b: Byte)
    requires a !in {IAC, SB, SE} && b !in {IAC, SB, SE} && t == Telnet(false, 0)
    ensures Filter(t, [IAC, a, b]) == Filtered(t, [])
  {
    assert [IAC, a, b][..2] == [IAC, a] && [IAC, a][..1] == [IAC] && [IAC][..0] == [];
    assert Filter(t, []) == Filtered(t, []);
    assert Filter(t, [IAC]) == Filtered(Telnet(false, 2), []);
    assert Filter(t, [IAC, a]) == Filtered(Telnet(false, 1), []);
  }

  lemma {:induction false} InsideSubnegotiation(t: Telnet, s: Buffer)
    requires t.inSubnegotiation && SE !in s
    ensures Filter(t, s).text == [] && Filter(t, s).state.inSubnegotiation
    decreases |s|
  {
    if |s| > 0 { InsideSubnegotiation(t, s[..|s| - 1]); }
  }

  /** So does a subnegotiation of any length. */
  lemma SubnegotiationTakesAll(t: Telnet, s: Buffer)
    requires !t.inSubnegotiation && SE !in s
    ensures Filter(t, [IAC, SB] + s + [IAC] + [SE]) == Filtered(Telnet(false, 0), [])
  {
    hide Filter;
    FilterAppend(t, [IAC, SB] + s + [IAC], [SE]);
    FilterAppend(t, [IAC, SB] + s, [IAC]);
    FilterAppend(t, [IAC, SB], s);
    assert [IAC, SB] == [IAC] + [SB];
    FilterAppend(t, [IAC], [SB]);
    FilterOne(t, IAC);
    FilterOne(Telnet(false, 2), SB);
    InsideSubnegotiation(Telnet(true, 1), s);
    var inside := Filter(Telnet(true, 1), s).state;
    FilterOne(inside, IAC);
    FilterOne(TelnetStep(inside, IAC), SE);
  }

  lemma FilterOne(t: Telnet, b: Byte)
    ensures Filter(t, [b]) == Filtered(TelnetStep(t, b), if Kept(t, b) then [b] else [])
  {
    hide TelnetStep, Kept;
    assert [b][..0] == [];
    FilterNothing(t);
  }

  // ---- what the Telnet filter leaves of a session ----

  /** What a Telnet peer sends: runs of 7-bit text, three-byte commands, subnegotiations, and stray bytes with the high
      bit set. */
  datatype TelnetItem =
    | Words(text: Buffer)
    | Command(verb: Byte, option: Byte)
    | Subnegotiation(data: Buffer)
    | Stray(b: Byte)

  predicate SevenBit(s: Buffer) {
    forall i :: 0 <= i < |s| ==> s[i] < 128
  }

  predicate Proper(item: TelnetItem) {
    match item
    case Words(text) => SevenBit(text)
    case Command(verb, option) => verb !in {255, 250, 240} && option !in {255, 250, 240}
    case Subnegotiation(data) => 240 !in data
    case Stray(b) => b >= 128 && b !in {255, 250, 240}
  }

  function ItemWire(item: TelnetItem): Buffer {
    match item
    case Words(text) => text
    case Command(verb, option) => [255, verb, option]
    case Subnegotiation(data) => [255, 250] + data + [255] + [240]
    case Stray(b) => [b]
  }

  function SessionWire(items: seq<TelnetItem>): Buffer {
    if |items| == 0 then [] else ItemWire(items[0]) + SessionWire(items[1..])
  }

  /** The text of a session, and nothing else. */
  function SessionText(items: seq<TelnetItem>): Buffer {
    if |items| == 0 then []
    else (if items[0].Words? then items[0].text else []) + SessionText(items[1..])
  }

  function FilterReads(t: Telnet, chunks: seq<Buffer>): Filtered
    decreases |chunks|
  {
    if |chunks| == 0 then Filtered(t, [])
    else
      var f := Filter(t, chunks[0]);
      var g := FilterReads(f.state, chunks[1..]);
      Filtered(g.state, f.text + g.text)
  }

  /** 7-bit text outside commands passes through unchanged. */
  lemma {:induction false} TextIsKept(s: Buffer)
    requires SevenBit(s)
    ensures Filter(Telnet(false, 0), s) == Filtered(Telnet(false, 0), s)
    decreases |s|
  {
    if |s| > 0 {
      var n := |s| - 1;
      assert s[n] < 128;
      TextIsKept(s[..n]);
      assert s == s[..n] + [s[n]];
    }
  }

  lemma ItemFiltered(item: TelnetItem)
    requires Proper(item)
    ensures Filter(Telnet(false, 0), ItemWire(item)) ==
      Filtered(Telnet(false, 0), if item.Words? then item.text else [])
  {
    hide Filter;
    match item
    case Words(text) => TextIsKept(text);
    case Command(verb, option) => CommandTakesThree(Telnet(false, 0), verb, option);
    case Subnegotiation(data) => SubnegotiationTakesAll(Telnet(false, 0), data);
    case Stray(b) => FilterOne(Telnet(false, 0), b);
  }

  lemma {:induction false} FilterReadsIsFilter(t: Telnet, chunks: seq<Buffer>)
    ensures FilterReads(t, chunks) == Filter(t, Concat(chunks))
    decreases |chunks|
  {
    hide Filter;
    if |chunks| == 0 {
      FilterNothing(t);
    } else {
      FilterReadsIsFilter(Filter(t, chunks[0]).state, chunks[1..]);
      FilterAppend(t, chunks[0], Concat(chunks[1..]));
    }
  }

  lemma {:induction false} SessionFiltered(items: seq<TelnetItem>)
    requires forall i <- items :: Proper(i)
    ensures Filter(Telnet(false, 0), SessionWire(items)) == Filtered(Telnet(false, 0), SessionText(items))
    decreases |items|
  {
    hide Filter, Proper, ItemWire;
    if |items| == 0 {
      FilterNothing(Telnet(false, 0));
    } else {
      ItemFiltered(items[0]);
      SessionFiltered(items[1..]);
      FilterAppend(Telnet(false, 0), ItemWire(items[0]), SessionWire(items[1..]));
    }
  }

  /** However a session is split into reads, even inside a command, the filter leaves exactly its text. */
  lemma SessionsLeaveTheirText(items: seq<TelnetItem>, chunks: seq<Buffer>)
    requires (forall i <- items :: Proper(i)) && Concat(chunks) == SessionWire(items)
    ensures FilterReads(Telnet(false, 0), chunks) == Filtered(Telnet(false, 0), SessionText(items))
  {
    hide Filter, FilterReads, Proper, SessionWire, SessionText, Concat;
    FilterReadsIsFilter(Telnet(false, 0), chunks);
    SessionFiltered(items);
  }

  class TelnetFilter {
    var inSubnegotiation: bool
    var commandBytesLeft: nat

    function Abs(): Telnet
      reads this
    {
      Telnet(inSubnegotiation, commandBytesLeft)
    }

    constructor ()
      ensures Abs() == Telnet(false, 0)
    {
      inSubnegotiation, commandBytesLeft := false, 0;
    }

    /** The buffer is edited in place: kept bytes move to the front. */
    method FilterInputBuffer(buf: array<Byte>, bufLen: nat) returns (newLen: nat)
      requires bufLen <= buf.Length
      modifies this, buf
      ensures newLen <= bufLen
      ensures Filtered(Abs(), buf[..newLen]) == Filter(old(Abs()), old(buf[..bufLen]))
      ensures buf[bufLen..] == old(buf[bufLen..])
    {
      hide Filter;
      ghost var was := buf[..];
      newLen := 0;
      FilterNothing(Abs());
      assert was[..0] == [] && buf[..0] == [];
      for i := 0 to bufLen
        invariant newLen <= i
        invariant Filter(old(Abs()), was[..i]) == Filtered(Abs(), buf[..newLen])
        invariant buf[i..] == was[i..]
      {
        var c := buf[i];
        assert c == buf[i..][0] == was[i];
        FilterStep(old(Abs()), was, i);
        ghost var t, text := Abs(), buf[..newLen];
        var keepChar := c < 128;
        if c == IAC {
          commandBytesLeft := 3;
        } else if c == SB {
          inSubnegotiation := true;
        } else if c == SE {
          inSubnegotiation, commandBytesLeft := false, 0;
        }
        if commandBytesLeft > 0 { commandBytesLeft, keepChar := commandBytesLeft - 1, false; }
        if inSubnegotiation { keepChar := false; }
        assert Abs() == TelnetStep(t, c) && keepChar == Kept(t, c);
        assert buf[i + 1..] == buf[i..][1..] == was[i + 1..];
        if keepChar {
          buf[newLen] := c;
          newLen := newLen + 1;
          assert buf[..newLen] == text + [c];
        } else {
          assert text + [] == text;
        }
      }
      assert was[..bufLen] == old(buf[..bufLen]);
    }
  }

  lemma FilterNothing(t: Telnet)
    ensures Filter(t, []) == Filtered(t, [])
  {
  }

  lemma FilterStep(t: Telnet, s: Buffer, i: nat)
    requires i < |s|
    ensures Filter(t, s[..i + 1]) ==
      (var f := Filter(t, s[..i]);
       Filtered(TelnetStep(f.state, s[i]), f.text + (if Kept(f.state, s[i]) then [s[i]] else [])))
  {
    hide TelnetStep, Kept;
    assert s[..i + 1][..i] == s[..i];
  }
}
