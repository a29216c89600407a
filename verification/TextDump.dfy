/** The text form of keys: hex dumps, and what can be read back from them. */
module TextDump {
  import opened Options
  import opened Bytes
  import opened Schemes
  import opened KeyLayout
  import opened Keys

  const PRINT_WIDTH: nat := 15

  /** A digit of `%02x`. */
  function HexDigit(d: nat): char
    requires d < 16
  {
    if d < 10 then '0' + d as char else 'a' + (d - 10) as char
  }

  function Hex(b: Byte): (r: string)
    ensures |r| == 2
  {
    [HexDigit(b / 16), HexDigit(b % 16)]
  }

  /** What the loop of `print_labeled_buf` has printed after `n` bytes. */
  function Body(buf: seq<Byte>, n: nat): string
    requires n <= |buf|
  {
    if n == 0 then "" else Body(buf, n - 1) + LineBreak(n - 1) + ByteText(buf, n - 1)
  }

  /** Before byte `i`, a line ends. */
  function LineBreak(i: nat): string {
    if i % PRINT_WIDTH == 0 && i > 0 then "\n" else ""
  }

  /** Byte `i` with the margin of the line it starts and the colon after all but the last. */
  function ByteText(buf: seq<Byte>, i: nat): string
    requires i < |buf|
  {
    (if i % PRINT_WIDTH == 0 then "    " else "") + Hex(buf[i]) + (if i == |buf| - 1 then "" else ":")
  }

  function Section(heading: string, buf: seq<Byte>): string {
    heading + "\n" + Body(buf, |buf|) + "\n"
  }

  /** `print_labeled_buf`, with the output collected in a string. */
  method PrintLabeledBuf(heading: string, buf: seq<Byte>) returns (out: string)
    ensures out == Section(heading, buf)
  {
    out := "";
    var i := 0;
    while i < |buf|
      invariant 0 <= i <= |buf|
      invariant out == Body(buf, i)
    {
      ghost var before := out;
      if i % PRINT_WIDTH == 0 {
        if i > 0 {
          out := out + "\n";
        }
        out := out + "    ";
      }
      out := out + Hex(buf[i]) + if i == |buf| - 1 then "" else ":";
      assert out == before + LineBreak(i) + ByteText(buf, i);
      i := i + 1;
    }
    out := heading + "\n" + out + "\n";
  }

  // ---- reading back ----

  function DigitValue(c: char): (r: Option<nat>)
    ensures r.Some? ==> r.value < 16
  {
    if '0' <= c <= '9' then Some(c as nat - '0' as nat)
    else if 'a' <= c <= 'f' then Some(c as nat - 'a' as nat + 10)
    else None
  }

  function TwoDigits(c: char, d: char): Option<Byte> {
    if DigitValue(c).None? || DigitValue(d).None? then None
    else Some(DigitValue(c).value * 16 + DigitValue(d).value)
  }

  predicate Blank(c: char) {
    c == ' ' || c == '\n' || c == ':'
  }

  /** The bytes a text denotes: two digits a byte, blanks, line ends and colons only between them. */
  function ReadHex(s: string): Option<seq<Byte>> {
    if s == "" then Some([])
    else if Blank(s[0]) then ReadHex(s[1..])
    else if |s| < 2 || TwoDigits(s[0], s[1]).None? || ReadHex(s[2..]).None? then None
    else Some([TwoDigits(s[0], s[1]).value] + ReadHex(s[2..]).value)
  }

  lemma HexReadsBack(b: Byte)
    ensures ReadHex(Hex(b)) == Some([b])
    ensures !Blank(Hex(b)[0]) && !Blank(Hex(b)[1])
  {
    DigitReadsBack(b / 16);
    DigitReadsBack(b % 16);
    assert Hex(b)[2..] == "";
    assert ReadHex(Hex(b)) == Some([b] + []);
    assert [b] + [] == [b];
  }

  lemma DigitReadsBack(d: nat)
    requires d < 16
    ensures DigitValue(HexDigit(d)) == Some(d) && !Blank(HexDigit(d))
  {
  }

  lemma {:induction false} ReadHexJoins(a: string, b: string)
    requires ReadHex(a).Some? && ReadHex(b).Some?
    ensures ReadHex(a + b) == Some(ReadHex(a).value + ReadHex(b).value)
  {
    if a == "" {
      assert a + b == b;
      assert [] + ReadHex(b).value == ReadHex(b).value;
    } else if Blank(a[0]) {
      ReadHexJoins(a[1..], b);
      TailOfJoin(a, b, 1);
    } else {
      ReadHexJoins(a[2..], b);
      TailOfJoin(a, b, 2);
      Regroup([TwoDigits(a[0], a[1]).value], ReadHex(a[2..]).value, ReadHex(b).value);
    }
  }

  lemma TailOfJoin(a: string, b: string, n: nat)
    requires n <= |a|
    ensures (a + b)[n..] == a[n..] + b
  {
  }

  lemma Regroup(x: seq<Byte>, y: seq<Byte>, z: seq<Byte>)
    ensures x + (y + z) == x + y + z
  {
  }

  lemma {:induction false} BlanksReadAsNothing(s: string)
    requires forall c <- s :: Blank(c)
    ensures ReadHex(s) == Some([])
  {
    if s != "" {
      BlanksReadAsNothing(s[1..]);
    }
  }

  lemma ByteTextReadsBack(buf: seq<Byte>, i: nat)
    requires i < |buf|
    ensures ReadHex(ByteText(buf, i)) == Some([buf[i]])
    ensures '\n' !in ByteText(buf, i)
  {
    var before, after := if i % PRINT_WIDTH == 0 then "    " else "", if i == |buf| - 1 then "" else ":";
    HexReadsBack(buf[i]);
    BlanksReadAsNothing(before);
    BlanksReadAsNothing(after);
    ReadHexJoins(before, Hex(buf[i]));
    ReadHexJoins(before + Hex(buf[i]), after);
    assert [] + [buf[i]] + [] == [buf[i]];
  }

  /** The dump loses nothing. */
  lemma {:induction false} BodyReadsBack(buf: seq<Byte>, n: nat)
    requires n <= |buf|
    ensures ReadHex(Body(buf, n)) == Some(buf[..n])
  {
    if n > 0 {
      var i := n - 1;
      BodyReadsBack(buf, i);
      ByteTextReadsBack(buf, i);
      BlanksReadAsNothing(LineBreak(i));
      ReadHexJoins(Body(buf, i), LineBreak(i));
      ReadHexJoins(Body(buf, i) + LineBreak(i), ByteText(buf, i));
      assert buf[..i] + [] + [buf[i]] == buf[..n];
    }
  }

  // ---- lines ----

  function Lines(s: string): (r: seq<string>)
    ensures |r| > 0
  {
    if s == "" then [""] else
    var init := Lines(s[..|s| - 1]);
    var c := s[|s| - 1];
    if c == '\n' then init + [""] else Extended(init, [c])
  }

  function Extended(l: seq<string>, text: string): (r: seq<string>)
    requires |l| > 0
    ensures |r| == |l|
  {
    l[..|l| - 1] + [l[|l| - 1] + text]
  }

  lemma ExtendedTwice(l: seq<string>, a: string, b: string)
    requires |l| > 0
    ensures Extended(Extended(l, a), b) == Extended(l, a + b)
    ensures Extended(l, "") == l
  {
    var last := l[|l| - 1];
    assert last + a + b == last + (a + b);
    assert last + "" == last;
  }

  /** Text without a line end goes on the last line. */
  lemma {:induction false} LinesExtend(a: string, b: string)
    requires '\n' !in b
    ensures Lines(a + b) == Extended(Lines(a), b)
  {
    if b == "" {
      assert a + b == a;
      ExtendedTwice(Lines(a), "", "");
    } else {
      var init, c := b[..|b| - 1], b[|b| - 1];
      LinesExtend(a, init);
      assert (a + b)[..|a + b| - 1] == a + init && (a + b)[|a + b| - 1] == c;
      ExtendedTwice(Lines(a), init, [c]);
      assert init + [c] == b;
    }
  }

  /** Line `j` of `l` reads back to bytes 15 j to 15 j + 15 of `buf`, the last line to the rest up to `n`. */
  ghost predicate LinesHold(buf: seq<Byte>, n: nat, l: seq<string>)
    requires n <= |buf|
  {
    && |l| > 0 && (|l| - 1) * PRINT_WIDTH < n <= |l| * PRINT_WIDTH
    && (forall j :: 0 <= j < |l| - 1 ==> ReadHex(l[j]) == Some(buf[j * PRINT_WIDTH..(j + 1) * PRINT_WIDTH]))
    && ReadHex(l[|l| - 1]) == Some(buf[(|l| - 1) * PRINT_WIDTH..n])
  }

  /** The lines after one more byte. */
  lemma LinesAfterByte(buf: seq<Byte>, i: nat)
    requires i < |buf|
    ensures var before, text := Lines(Body(buf, i)), ByteText(buf, i);
            Lines(Body(buf, i + 1)) == if i % PRINT_WIDTH == 0 && i > 0 then before + [text] else Extended(before, text)
  {
    var body, text := Body(buf, i), ByteText(buf, i);
    ByteTextReadsBack(buf, i);
    LinesExtend(body + LineBreak(i), text);
    if i % PRINT_WIDTH == 0 && i > 0 {
      assert (body + "\n")[..|body|] == body;
      assert Lines(body + "\n") == Lines(body) + [""];
      assert "" + text == text;
    } else {
      assert body + LineBreak(i) == body;
    }
  }

  /** So every line of a dump but the last holds exactly fifteen bytes, and the last at most fifteen. */
  lemma {:induction false} LinesHoldFifteen(buf: seq<Byte>, n: nat)
    requires 0 < n <= |buf|
    ensures LinesHold(buf, n, Lines(Body(buf, n)))
  {
    if n == 1 {
      FirstLine(buf);
    } else {
      LinesHoldFifteen(buf, n - 1);
      OneMoreByte(buf, n);
    }
  }

  lemma OneMoreByte(buf: seq<Byte>, n: nat)
    requires 1 < n <= |buf| && LinesHold(buf, n - 1, Lines(Body(buf, n - 1)))
    ensures LinesHold(buf, n, Lines(Body(buf, n)))
  {
    var i := n - 1;
    ByteTextReadsBack(buf, i);
    LinesAfterByte(buf, i);
    if i % PRINT_WIDTH == 0 {
      NewLine(buf, i, Lines(Body(buf, i)), ByteText(buf, i));
    } else {
      LongerLine(buf, i, Lines(Body(buf, i)), ByteText(buf, i));
    }
  }

  lemma FirstLine(buf: seq<Byte>)
    requires |buf| > 0
    ensures LinesHold(buf, 1, Lines(Body(buf, 1)))
  {
    var text := ByteText(buf, 0);
    ByteTextReadsBack(buf, 0);
    LinesAfterByte(buf, 0);
    assert Body(buf, 0) == "" && Lines("") == [""] && "" + text == text;
    OneLine(buf, text);
  }

  lemma OneLine(buf: seq<Byte>, text: string)
    requires |buf| > 0 && ReadHex(text) == Some([buf[0]])
    ensures LinesHold(buf, 1, [text])
  {
    assert buf[0..1] == [buf[0]];
  }

  /** After a full line, the next byte starts a new one. */
  lemma NewLine(buf: seq<Byte>, i: nat, before: seq<string>, text: string)
    requires 0 < i < |buf| && i % PRINT_WIDTH == 0 && LinesHold(buf, i, before)
    requires ReadHex(text) == Some([buf[i]])
    ensures LinesHold(buf, i + 1, before + [text])
  {
    assert i == |before| * PRINT_WIDTH;
    assert buf[i..i + 1] == [buf[i]];
  }

  /** Otherwise it goes on the last line. */
  lemma LongerLine(buf: seq<Byte>, i: nat, before: seq<string>, text: string)
    requires 0 < i < |buf| && i % PRINT_WIDTH != 0 && LinesHold(buf, i, before)
    requires ReadHex(text) == Some([buf[i]])
    ensures LinesHold(buf, i + 1, Extended(before, text))
  {
    var last := |before| - 1;
    var start := last * PRINT_WIDTH;
    ReadHexJoins(before[last], text);
    OneMore(buf, start, i);
    assert i < |before| * PRINT_WIDTH;
  }

  lemma OneMore(buf: seq<Byte>, start: nat, i: nat)
    requires start <= i < |buf|
    ensures buf[start..i + 1] == buf[start..i] + [buf[i]]
  {
  }

  // ---- lines, character by character ----

  /** Four blanks, then each byte as two lower-case digits with a colon behind it; on the last line of all none behind
      the last. */
  ghost predicate Spells(line: string, bytes: seq<Byte>, closed: bool) {
    && |line| == 4 + 3 * |bytes| - (if closed then 1 else 0)
    && "    " <= line
    && (forall k :: 0 <= k < |bytes| ==> line[4 + 3 * k] == "0123456789abcdef"[bytes[k] / 16])
    && (forall k :: 0 <= k < |bytes| ==> line[5 + 3 * k] == "0123456789abcdef"[bytes[k] % 16])
    && (forall k :: 0 <= k < |bytes| && 6 + 3 * k < |line| ==> line[6 + 3 * k] == ':')
  }

  lemma HexSpelledOut(b: Byte)
    ensures Hex(b) == ["0123456789abcdef"[b / 16], "0123456789abcdef"[b % 16]]
  {
    DigitSpelledOut(b / 16);
    DigitSpelledOut(b % 16);
  }

  lemma DigitSpelledOut(d: nat)
    requires d < 16
    ensures HexDigit(d) == "0123456789abcdef"[d]
  {
    assert d == 0 || d == 1 || d == 2 || d == 3 || d == 4 || d == 5 || d == 6 || d == 7
        || d == 8 || d == 9 || d == 10 || d == 11 || d == 12 || d == 13 || d == 14 || d == 15;
  }

  lemma FirstByteSpells(b: Byte, closed: bool)
    ensures Spells("    " + Hex(b) + (if closed then "" else ":"), [b], closed)
  {
    HexSpelledOut(b);
  }

  lemma NextByteSpells(line: string, bytes: seq<Byte>, b: Byte, closed: bool)
    requires Spells(line, bytes, false)
    ensures Spells(line + ("" + Hex(b) + (if closed then "" else ":")), bytes + [b], closed)
  {
    HexSpelledOut(b);
  }

  /** The lines of a dump: fifteen bytes on each, the rest on the last. */
  ghost predicate LinesSpell(buf: seq<Byte>, n: nat, l: seq<string>)
    requires n <= |buf|
  {
    && |l| > 0 && (|l| - 1) * 15 < n <= |l| * 15
    && (forall j :: 0 <= j < |l| - 1 ==> Spells(l[j], buf[j * 15..(j + 1) * 15], false))
    && Spells(l[|l| - 1], buf[(|l| - 1) * 15..n], n == |buf|)
  }

  lemma {:induction false} LinesSpelledOut(buf: seq<Byte>, n: nat)
    requires 0 < n <= |buf|
    ensures LinesSpell(buf, n, Lines(Body(buf, n)))
  {
    var i := n - 1;
    LinesAfterByte(buf, i);
    if n == 1 {
      assert Body(buf, 0) == "" && Lines("") == [""] && "" + ByteText(buf, 0) == ByteText(buf, 0);
      FirstByteSpells(buf[0], |buf| == 1);
      assert buf[0..1] == [buf[0]];
    } else {
      LinesSpelledOut(buf, i);
      LineSpelledOn(buf, i, Lines(Body(buf, i)));
    }
  }

  lemma LineSpelledOn(buf: seq<Byte>, i: nat, before: seq<string>)
    requires 0 < i < |buf| && LinesSpell(buf, i, before)
    ensures LinesSpell(buf, i + 1,
                       if i % 15 == 0 then before + [ByteText(buf, i)] else Extended(before, ByteText(buf, i)))
  {
    if i % 15 == 0 {
      FirstByteSpells(buf[i], i == |buf| - 1);
      NewLineSpelled(buf, i, before, ByteText(buf, i));
    } else {
      var last := |before| - 1;
      NextByteSpells(before[last], buf[last * 15..i], buf[i], i == |buf| - 1);
      LongerLineSpelled(buf, i, before, ByteText(buf, i));
    }
  }

  lemma NewLineSpelled(buf: seq<Byte>, i: nat, before: seq<string>, text: string)
    requires 0 < i < |buf| && i % 15 == 0 && LinesSpell(buf, i, before) && Spells(text, [buf[i]], i == |buf| - 1)
    ensures LinesSpell(buf, i + 1, before + [text])
  {
    assert i == |before| * 15;
    assert buf[i..i + 1] == [buf[i]];
  }

  lemma LongerLineSpelled(buf: seq<Byte>, i: nat, before: seq<string>, text: string)
    requires 0 < i < |buf| && i % 15 != 0 && LinesSpell(buf, i, before)
    requires var last := |before| - 1; Spells(before[last] + text, buf[last * 15..i] + [buf[i]], i == |buf| - 1)
    ensures LinesSpell(buf, i + 1, Extended(before, text))
  {
    OneMore(buf, (|before| - 1) * 15, i);
    assert i < |before| * 15;
  }

  // ---- whole keys ----

  /** The two sections of a hybrid buffer, or the one of a plain buffer. */
  function BufferText(hybrid: bool, nid: string, buf: seq<Byte>): string
    requires hybrid ==> HeaderInBuffer(buf)
  {
    if hybrid then
      Section(nid + " key material:", ClassicalPart(buf))
      + Section("PQ key material:", buf[SIZE_OF_UINT32 + DecodeUint32(buf)..])
    else Section("PQ key material:", buf)
  }

  /** The title line of `oqsx_to_text`: the private key has precedence when both are selected. */
  function Title(alg: Algorithm, private: bool): string {
    alg.tlsName + (if alg.Hybrid() then " hybrid" else "") + (if private then " private" else " public") + " key:\n"
  }

  /** The component pointers of each buffer are set by its header, which names bytes inside it: finished keys, and
      imported ones whose header exceeds the table. */
  ghost predicate Printable(alg: Algorithm, s: KeyState) {
    && Shaped(alg, s)
    && (s.priv.Some? ==> s.compPriv == Slots(alg, s.priv) && (alg.Hybrid() ==> HeaderInBuffer(s.priv.value)))
    && (s.pub.Some? ==> s.compPub == Slots(alg, s.pub) && (alg.Hybrid() ==> HeaderInBuffer(s.pub.value)))
  }

  lemma CompletedIsPrintable(alg: Algorithm, s: KeyState)
    requires Completed(alg, s)
    ensures Printable(alg, s)
  {
  }

  /** `oqsx_to_text`: nothing when a selected half is missing. A public half that is missing beside a selected
      private one is just not printed. */
  ghost function KeyText(alg: Algorithm, s: KeyState, nid: string, private: bool, public: bool): Option<string>
    requires Printable(alg, s)
  {
    if (private && s.priv.None?) || (!private && public && s.pub.None?) then None
    else Some((if private || public then Title(alg, private) else "")
              + (HalfText(alg.Hybrid(), nid, if private then s.priv else None)
                 + HalfText(alg.Hybrid(), nid, if public then s.pub else None)))
  }

  /** A half that is selected and there is printed. */
  function HalfText(hybrid: bool, nid: string, buf: Option<seq<Byte>>): string
    requires hybrid && buf.Some? ==> HeaderInBuffer(buf.value)
  {
    if buf.Some? then BufferText(hybrid, nid, buf.value) else ""
  }

  // ---- reading whole texts ----

  predicate Indented(line: string) {
    |line| > 0 && line[0] == ' '
  }

  /** The bytes a line carries: those of its hex digits if it is indented, else none. */
  function ReadLine(line: string): Option<seq<Byte>> {
    if Indented(line) then ReadHex(line) else Some([])
  }

  function ReadLines(l: seq<string>): Option<seq<Byte>> {
    if l == [] then Some([])
    else Joined(ReadLines(l[..|l| - 1]), ReadLine(l[|l| - 1]))
  }

  function Joined(a: Option<seq<Byte>>, b: Option<seq<Byte>>): Option<seq<Byte>> {
    if a.Some? && b.Some? then Some(a.value + b.value) else None
  }

  function ReadText(text: string): Option<seq<Byte>> {
    ReadLines(Lines(text))
  }

  /** One line that is no hex line. */
  predicate Heading(text: string) {
    '\n' !in text && !Indented(text)
  }

  lemma {:induction false} LinesJoin(a: string, b: string)
    ensures Lines(a + "\n" + b) == Lines(a) + Lines(b)
  {
    if b == "" {
      LinesGrow(a, '\n');
      assert a + "\n" + b == a + ['\n'];
    } else {
      var init, c := b[..|b| - 1], b[|b| - 1];
      LinesJoin(a, init);
      LinesGrow(a + "\n" + init, c);
      LinesGrow(init, c);
      ExtendedBehind(Lines(a), Lines(init), [c]);
      LastApart(a + "\n", b);
    }
  }

  lemma LastApart(a: string, b: string)
    requires b != ""
    ensures b[..|b| - 1] + [b[|b| - 1]] == b && a + b[..|b| - 1] + [b[|b| - 1]] == a + b
  {
  }

  lemma LinesGrow(s: string, c: char)
    ensures Lines(s + [c]) == if c == '\n' then Lines(s) + [""] else Extended(Lines(s), [c])
  {
    assert (s + [c])[..|s|] == s;
  }

  lemma ExtendedBehind(l: seq<string>, m: seq<string>, text: string)
    requires |m| > 0
    ensures Extended(l + m, text) == l + Extended(m, text)
    ensures l + m + [""] == l + (m + [""])
  {
  }

  lemma {:induction false} ReadLinesJoin(l: seq<string>, m: seq<string>)
    ensures ReadLines(l + m) == Joined(ReadLines(l), ReadLines(m))
  {
    if m == [] {
      assert l + m == l;
      assert ReadLines(l).Some? ==> ReadLines(l).value + [] == ReadLines(l).value;
    } else {
      var init := m[..|m| - 1];
      ReadLinesJoin(l, init);
      assert (l + m)[..|l + m| - 1] == l + init && (l + m)[|l + m| - 1] == m[|m| - 1];
      JoinedTwice(ReadLines(l), ReadLines(init), ReadLine(m[|m| - 1]));
    }
  }

  lemma JoinedTwice(a: Option<seq<Byte>>, b: Option<seq<Byte>>, c: Option<seq<Byte>>)
    ensures Joined(Joined(a, b), c) == Joined(a, Joined(b, c))
  {
    if a.Some? && b.Some? && c.Some? {
      assert a.value + b.value + c.value == a.value + (b.value + c.value);
    }
  }

  lemma TextJoins(a: string, b: string)
    ensures ReadText(a + "\n" + b) == Joined(ReadText(a), ReadText(b))
  {
    LinesJoin(a, b);
    ReadLinesJoin(Lines(a), Lines(b));
  }

  lemma OneLineReads(line: string)
    ensures ReadLines([line]) == ReadLine(line)
  {
    assert [line][..0] == [] && ReadLines([]) == Some([]);
    assert ReadLine(line).Some? ==> [] + ReadLine(line).value == ReadLine(line).value;
  }

  lemma HeadingReads(text: string)
    requires Heading(text)
    ensures ReadText(text) == Some([])
  {
    LinesExtend("", text);
    assert Lines("") == [""] && "" + text == text;
    assert Lines(text) == [text];
    OneLineReads(text);
  }

  /** The hex lines of a buffer read back to it line by line. */
  lemma {:induction false} BodyTextReadsBack(buf: seq<Byte>, n: nat)
    requires n <= |buf|
    ensures ReadText(Body(buf, n)) == Some(buf[..n])
    ensures var l := Lines(Body(buf, n)); if n == 0 then l == [""] else Indented(l[|l| - 1])
  {
    if n == 0 {
      OneLineReads("");
    } else {
      var i := n - 1;
      BodyTextReadsBack(buf, i);
      LinesAfterByte(buf, i);
      ByteTextReadsBack(buf, i);
      OneMoreReads(Lines(Body(buf, i)), ByteText(buf, i), i);
      PrefixGrows(buf, i);
    }
  }

  lemma PrefixGrows(buf: seq<Byte>, i: nat)
    requires i < |buf|
    ensures buf[..i + 1] == buf[..i] + [buf[i]]
  {
  }

  /** The text of byte `i` put where the dump puts it: on the first line, on a new one, or at the end of the last. */
  lemma OneMoreReads(before: seq<string>, text: string, i: nat)
    requires |before| > 0 && ReadLines(before).Some? && ReadHex(text).Some?
    requires if i == 0 then before == [""] else Indented(before[|before| - 1])
    requires i % PRINT_WIDTH == 0 ==> Indented(text)
    ensures var l := if i % PRINT_WIDTH == 0 && i > 0 then before + [text] else Extended(before, text);
            ReadLines(l) == Some(ReadLines(before).value + ReadHex(text).value) && Indented(l[|l| - 1])
  {
    if i == 0 {
      assert Extended(before, text) == [before[0] + text] && before[0] + text == text;
      OneLineReads(text);
      OneLineReads("");
      assert [] + ReadHex(text).value == ReadHex(text).value;
    } else if i % PRINT_WIDTH == 0 {
      OneLineReads(text);
      ReadLinesJoin(before, [text]);
    } else {
      LastLineGrows(before, text);
    }
  }

  lemma LastLineGrows(l: seq<string>, text: string)
    requires |l| > 0 && ReadLines(l).Some? && ReadHex(text).Some? && Indented(l[|l| - 1])
    ensures ReadLines(Extended(l, text)) == Some(ReadLines(l).value + ReadHex(text).value)
    ensures Indented(Extended(l, text)[|l| - 1])
  {
    var init, last := l[..|l| - 1], l[|l| - 1];
    ReadHexJoins(last, text);
    assert Extended(l, text)[..|l| - 1] == init && Extended(l, text)[|l| - 1] == last + text;
    JoinedTwice(ReadLines(init), ReadHex(last), ReadHex(text));
  }

  lemma SectionReadsBack(heading: string, buf: seq<Byte>, rest: string)
    requires Heading(heading)
    ensures ReadText(Section(heading, buf) + rest) == Joined(Some(buf), ReadText(rest))
  {
    var body := Body(buf, |buf|);
    BodyTextReadsBack(buf, |buf|);
    HeadingReads(heading);
    TextJoins(heading, body);
    assert buf[..|buf|] == buf && [] + buf == buf;
    TextJoins(heading + "\n" + body, rest);
    assert Section(heading, buf) + rest == heading + "\n" + body + "\n" + rest;
  }

  /** What a dump has to carry: everything behind the header of a hybrid buffer, padding included; all of a
      plain one. */
  function Material(hybrid: bool, buf: seq<Byte>): seq<Byte>
    requires hybrid ==> HeaderInBuffer(buf)
  {
    if hybrid then buf[SIZE_OF_UINT32..] else buf
  }

  /** The section or two sections of a buffer read back to it, whatever text follows. */
  lemma HybridTextLosesNothing(hybrid: bool, nid: string, buf: seq<Byte>, rest: string)
    requires (hybrid ==> HeaderInBuffer(buf)) && Heading(nid + " key material:")
    ensures ReadText(BufferText(hybrid, nid, buf) + rest) == Joined(Some(Material(hybrid, buf)), ReadText(rest))
  {
    if hybrid {
      var classical, pq := ClassicalPart(buf), buf[SIZE_OF_UINT32 + DecodeUint32(buf)..];
      var tail := Section("PQ key material:", pq) + rest;
      SectionReadsBack("PQ key material:", pq, rest);
      SectionReadsBack(nid + " key material:", classical, tail);
      assert BufferText(hybrid, nid, buf) + rest == Section(nid + " key material:", classical) + tail;
      JoinedTwice(Some(classical), Some(pq), ReadText(rest));
      assert classical + pq == buf[SIZE_OF_UINT32..];
    } else {
      SectionReadsBack("PQ key material:", buf, rest);
    }
  }

  /** The text of a key reads back to the material of the halves selected, the private one first. */
  lemma KeyTextLosesNothing(alg: Algorithm, s: KeyState, nid: string, private: bool, public: bool)
    requires Printable(alg, s) && KeyText(alg, s, nid, private, public).Some?
    requires Heading(nid + " key material:") && Heading(alg.tlsName) && alg.tlsName != ""
    ensures ReadText(KeyText(alg, s, nid, private, public).value)
         == Some((if private then Material(alg.Hybrid(), s.priv.value) else [])
                 + if public && s.pub.Some? then Material(alg.Hybrid(), s.pub.value) else [])
  {
    var priv, pub := if private then s.priv else None, if public then s.pub else None;
    HalvesRead(alg.Hybrid(), nid, priv, pub);
    WithTitle(alg, private, private || public, HalfText(alg.Hybrid(), nid, priv) + HalfText(alg.Hybrid(), nid, pub));
  }

  lemma WithTitle(alg: Algorithm, private: bool, titled: bool, rest: string)
    requires Heading(alg.tlsName) && alg.tlsName != ""
    ensures ReadText((if titled then Title(alg, private) else "") + rest) == ReadText(rest)
  {
    if titled {
      TitleReads(alg, private, rest);
      assert ReadText(rest).Some? ==> [] + ReadText(rest).value == ReadText(rest).value;
    } else {
      assert "" + rest == rest;
    }
  }

  lemma HalvesRead(hybrid: bool, nid: string, priv: Option<seq<Byte>>, pub: Option<seq<Byte>>)
    requires hybrid && priv.Some? ==> HeaderInBuffer(priv.value)
    requires hybrid && pub.Some? ==> HeaderInBuffer(pub.value)
    requires Heading(nid + " key material:")
    ensures ReadText(HalfText(hybrid, nid, priv) + HalfText(hybrid, nid, pub))
         == Some((if priv.Some? then Material(hybrid, priv.value) else [])
                 + if pub.Some? then Material(hybrid, pub.value) else [])
  {
    HeadingReads("");
    var pubText := HalfText(hybrid, nid, pub);
    assert pubText + "" == pubText && "" + pubText == pubText;
    if pub.Some? {
      HybridTextLosesNothing(hybrid, nid, pub.value, "");
      assert Material(hybrid, pub.value) + [] == Material(hybrid, pub.value) == [] + Material(hybrid, pub.value);
    }
    if priv.Some? {
      HybridTextLosesNothing(hybrid, nid, priv.value, pubText);
    }
  }

  lemma TitleReads(alg: Algorithm, private: bool, rest: string)
    requires Heading(alg.tlsName) && alg.tlsName != ""
    ensures ReadText(Title(alg, private) + rest) == Joined(Some([]), ReadText(rest))
  {
    var line := alg.tlsName + (if alg.Hybrid() then " hybrid" else "") + (if private then " private" else " public")
               + " key:";
    assert Title(alg, private) + rest == line + "\n" + rest;
    HeadingReads(line);
    TextJoins(line, rest);
  }

  /** The label, the lines of the dump, and after the last line's end nothing. */
  lemma SectionLines(heading: string, buf: seq<Byte>)
    requires '\n' !in heading
    ensures Lines(Section(heading, buf)) == [heading] + Lines(Body(buf, |buf|)) + [""]
  {
    OneLineOnly(heading);
    LinesOfBoth(heading, Body(buf, |buf|));
  }

  lemma OneLineOnly(a: string)
    requires '\n' !in a
    ensures Lines(a) == [a]
  {
    LinesExtend("", a);
    assert Lines("") == [""] && "" + a == a;
  }

  lemma LinesOfBoth(a: string, b: string)
    ensures Lines(a + "\n" + b + "\n") == Lines(a) + Lines(b) + [""]
  {
    LinesJoin(a, b);
    LinesJoin(a + "\n" + b, "");
    assert Lines("") == [""] && a + "\n" + b + "\n" + "" == a + "\n" + b + "\n";
  }

  /** What the text of a key says, word for word; a selected private half decides the title. */
  lemma KeyTextSpelledOut(alg: Algorithm, s: KeyState, nid: string, private: bool, public: bool)
    requires Printable(alg, s)
    ensures private && s.priv.None? ==> KeyText(alg, s, nid, private, public) == None
    ensures !private && public && s.pub.None? ==> KeyText(alg, s, nid, private, public) == None
    ensures !private && !public ==> KeyText(alg, s, nid, private, public) == Some("")
    ensures (private && s.priv.Some?) || (!private && public && s.pub.Some?) ==>
              var hybrid := !alg.keytype.PlainSig? && !alg.keytype.PlainKem?;
              KeyText(alg, s, nid, private, public)
              == Some(alg.tlsName
                      + (if hybrid && private then " hybrid private key:\n" else if hybrid then " hybrid public key:\n"
                         else if private then " private key:\n" else " public key:\n")
                      + ((if private then BufferText(hybrid, nid, s.priv.value) else "")
                         + (if public && s.pub.Some? then BufferText(hybrid, nid, s.pub.value) else "")))
  {
    TitleSpelledOut(alg, private);
    assert "" + ("" + "") == "";
  }

  lemma TitleSpelledOut(alg: Algorithm, private: bool)
    ensures Title(alg, private)
         == alg.tlsName + if alg.Hybrid() then (if private then " hybrid private key:\n" else " hybrid public key:\n")
                          else (if private then " private key:\n" else " public key:\n")
  {
    var name := alg.tlsName;
    assert name + " hybrid" + " private" + " key:\n" == name + " hybrid private key:\n";
    assert name + " hybrid" + " public" + " key:\n" == name + " hybrid public key:\n";
    assert name + "" + " private" + " key:\n" == name + " private key:\n";
    assert name + "" + " public" + " key:\n" == name + " public key:\n";
  }

  /** And one buffer: the bytes its header names under the name of the classical algorithm, the rest under PQ. */
  lemma BufferTextSpelledOut(nid: string, buf: seq<Byte>)
    ensures BufferText(false, nid, buf) == Section("PQ key material:", buf)
    ensures HeaderInBuffer(buf) ==>
              var n := DecodeUint32(buf);
              BufferText(true, nid, buf)
              == Section(nid + " key material:", buf[4..4 + n]) + Section("PQ key material:", buf[4 + n..])
  {
  }

  method ToText(key: OqsxKey, nid: string, private: bool, public: bool) returns (out: Option<string>)
    requires key.Valid() && Printable(key.alg, key.State())
    ensures out == KeyText(key.alg, key.State(), nid, private, public)
  {
    var text := "";
    if private {
      if key.privkey == null {
        return None;
      }
      text := Title(key.alg, true);
    } else if public {
      if key.pubkey == null {
        return None;
      }
      text := Title(key.alg, false);
    }
    var privText, pubText := PrintHalves(key, nid, private, public);
    return Some(text + (privText + pubText));
  }

  /** The selected halves, as far as they are there. */
  method PrintHalves(key: OqsxKey, nid: string, private: bool, public: bool) returns (privText: string, pubText: string)
    requires key.Valid() && Printable(key.alg, key.State())
    ensures privText == HalfText(key.alg.Hybrid(), nid, if private then key.State().priv else None)
    ensures pubText == HalfText(key.alg.Hybrid(), nid, if public then key.State().pub else None)
  {
    privText, pubText := "", "";
    if private && key.privkey != null {
      key.PrivatePointers();
      privText := PrintBuffer(key.numkeys, nid, key.privkey, key.compPrivkey, key.privkeylen);
    }
    if public && key.pubkey != null {
      key.PublicPointers();
      pubText := PrintBuffer(key.numkeys, nid, key.pubkey, key.compPubkey, key.pubkeylen);
    }
  }

  /** One buffer, through its component pointers. */
  method PrintBuffer(numkeys: nat, nid: string, buf: array<Byte>, comp: seq<Pointer>, size: nat) returns (out: string)
    requires size == buf.Length < TWO_TO_THE_31 && |comp| == numkeys && 1 <= numkeys <= 2
    requires numkeys == 2 ==>
               && HeaderInBuffer(buf[..])
               && comp == [At(buf, SIZE_OF_UINT32), At(buf, SIZE_OF_UINT32 + DecodeUint32(buf[..]))]
    requires numkeys == 1 ==> comp == [At(buf, 0)]
    ensures out == BufferText(numkeys == 2, nid, buf[..])
  {
    var last := comp[numkeys - 1];
    if numkeys > 1 {
      var classicKeyLen := AsInt(DecodeUint32(buf[..]));
      var first := comp[0];
      var classical := PrintLabeledBuf(nid + " key material:", first.buf[first.off..first.off + classicKeyLen]);
      var pqLen := size - classicKeyLen - SIZE_OF_UINT32;
      var pq := PrintLabeledBuf("PQ key material:", last.buf[last.off..last.off + pqLen]);
      assert first.buf[first.off..first.off + classicKeyLen] == ClassicalPart(buf[..]);
      assert last.buf[last.off..last.off + pqLen] == buf[..][SIZE_OF_UINT32 + DecodeUint32(buf[..])..];
      out := classical + pq;
    } else {
      out := PrintLabeledBuf("PQ key material:", last.buf[last.off..last.off + size]);
      assert last.buf[last.off..last.off + size] == buf[..];
    }
  }
}
