/**
  * `xemit_hex`: the hex dump of a byte buffer that fills a `remaining`
  * element. Each byte is two lower-case hex digits, high nibble first;
  * bytes are separated by one space and groups of four by two, sixteen
  * bytes to a line. A dump of more than sixteen bytes starts on a line of
  * its own and ends with a newline; a shorter one stays inline.
  */
module HexDump {
  import opened Bytes
  import opened Xml

  /** The digit table of `xemit_hex`. */
  const Digits := "0123456789abcdef"

  /** `hex[v]`, computed from the digit's value. */
  function HexDigit(v: nat): char
    requires v < 16
  {
    if v < 10 then ('0' as int + v) as char else ('a' as int + v - 10) as char
  }

  /** The value of a lower-case hex digit (anything else reads as 0). */
  function HexValue(c: char): (v: nat)
    ensures v < 16
  {
    if '0' <= c <= '9' then c as int - '0' as int
    else if 'a' <= c <= 'f' then c as int - 'a' as int + 10
    else 0
  }

  /** The digits are those of the table, which are neither a space nor a newline, and read back as their value. */
  lemma DigitRoundTrip(v: nat)
    requires v < 16
    ensures HexDigit(v) == Digits[v]
    ensures HexValue(HexDigit(v)) == v
    ensures HexDigit(v) != ' ' && HexDigit(v) != '\n'
  {
  }

  /** `hex[p[i] >> 4]`. */
  function Hi(b: byte): char {
    HexDigit(b as int / 16)
  }

  /** `hex[p[i] & 0xf]`. */
  function Lo(b: byte): char {
    HexDigit(b as int % 16)
  }

  function ParseByte(hi: char, lo: char): byte {
    (HexValue(hi) * 16 + HexValue(lo)) as byte
  }

  lemma ByteRoundTrip(b: byte)
    ensures ParseByte(Hi(b), Lo(b)) == b
  {
    DigitRoundTrip(b as int / 16);
    DigitRoundTrip(b as int % 16);
  }

  /** What separates byte `j` from the one before it: nothing before the first, two spaces before 4, 8, 12, ... */
  function Gap(j: nat): string {
    if j == 0 then "" else if j % 4 == 0 then "  " else " "
  }

  /** The length of a line of `k` bytes. */
  function LineLen(k: nat): nat {
    if k == 0 then 0 else 3 * k - 1 + (k - 1) / 4
  }

  /** One line of the dump: the bytes of `bs` in order, each after its gap. */
  function HexLine(bs: seq<byte>): (line: string)
    decreases |bs|
  {
    if bs == [] then [] else HexLine(bs[..|bs| - 1]) + Gap(|bs| - 1) + [Hi(bs[|bs| - 1]), Lo(bs[|bs| - 1])]
  }

  /** A line of `k` bytes is `LineLen(k)` columns long. */
  lemma {:induction false} LineLength(bs: seq<byte>)
    ensures |HexLine(bs)| == LineLen(|bs|)
    decreases |bs|
  {
    if bs != [] {
      LineLength(bs[..|bs| - 1]);
    }
  }

  /** The column of the high digit of byte `j` (the `bi` of `xemit_hex`). */
  function Pos(j: nat): nat {
    3 * j + j / 4
  }

  /** Byte `j` sits right after the line of the `j` bytes before it and its gap. */
  lemma LineLenStep(j: nat)
    ensures LineLen(j) + |Gap(j)| == Pos(j)
    ensures LineLen(j + 1) == Pos(j) + 2
  {
  }

  /** The column steps by three from byte to byte, and by one more before bytes 4, 8, 12. */
  lemma PosStep(j: nat)
    ensures j > 0 ==> Pos(j) == Pos(j - 1) + 3 + if j % 4 == 0 then 1 else 0
  {
  }

  lemma PosMonotone(t: nat, j: nat)
    requires t <= j
    ensures Pos(t) <= Pos(j) && LineLen(t) <= LineLen(j)
  {
  }

  /** The line of a prefix of the bytes is a prefix of the line. */
  lemma {:induction false} LinePrefix(bs: seq<byte>, k: nat)
    requires k <= |bs|
    ensures LineLen(k) <= |HexLine(bs)| && HexLine(bs)[..LineLen(k)] == HexLine(bs[..k])
    decreases |bs|
  {
    if k < |bs| {
      var m := |bs| - 1;
      PosMonotone(k, m);
      LineLength(bs[..m]);
      LineLength(bs);
      TakeFront(HexLine(bs[..m]), Gap(m), [Hi(bs[m]), Lo(bs[m])], LineLen(k));
      LinePrefix(bs[..m], k);
      assert bs[..m][..k] == bs[..k];
    } else {
      LineLength(bs);
      assert bs[..k] == bs;
    }
  }

  lemma TakeFront(a: string, b: string, c: string, n: nat)
    requires n <= |a|
    ensures (a + b + c)[..n] == a[..n]
  {
  }

  /** A line grows by the gap and the two digits of its next byte. */
  lemma LineSnoc(bs: seq<byte>, t: nat)
    requires t < |bs|
    ensures HexLine(bs[..t + 1]) == HexLine(bs[..t]) + Gap(t) + [Hi(bs[t]), Lo(bs[t])]
  {
    var front := bs[..t + 1];
    assert front[..t] == bs[..t] && front[t] == bs[t];
  }

  /** The line up to byte `t` and its digits. */
  lemma LineUpTo(bs: seq<byte>, t: nat)
    requires t < |bs|
    ensures LineLen(t + 1) <= |HexLine(bs)|
    ensures HexLine(bs)[..LineLen(t + 1)] == HexLine(bs[..t]) + Gap(t) + [Hi(bs[t]), Lo(bs[t])]
  {
    LinePrefix(bs, t + 1);
    LineSnoc(bs, t);
  }

  /**
    * The layout column by column: byte `t` has its high digit at column
    * `Pos(t)` and its low digit right after, and the columns between two
    * bytes hold its gap of one or two spaces.
    */
  lemma LineColumns(bs: seq<byte>, t: nat)
    requires t < |bs|
    ensures Pos(t) + 1 < |HexLine(bs)|
    ensures HexLine(bs)[Pos(t)] == Hi(bs[t]) && HexLine(bs)[Pos(t) + 1] == Lo(bs[t])
    ensures HexLine(bs)[LineLen(t)..Pos(t)] == Gap(t)
  {
    var x, a := HexLine(bs), HexLine(bs[..t]);
    var l, p := LineLen(t), Pos(t);
    assert |a| == l by {
      LineLength(bs[..t]);
    }
    assert l + |Gap(t)| == p && p + 2 == LineLen(t + 1) by {
      LineLenStep(t);
    }
    assert p + 2 <= |x| && x[..p + 2] == a + Gap(t) + [Hi(bs[t]), Lo(bs[t])] by {
      LineUpTo(bs, t);
    }
    Pieces(x, a, Gap(t), Hi(bs[t]), Lo(bs[t]), l, p);
  }

  lemma Pieces(x: string, a: string, b: string, hi: char, lo: char, l: nat, p: nat)
    requires |a| == l && l + |b| == p && p + 2 <= |x| && x[..p + 2] == a + b + [hi, lo]
    ensures x[l..p] == b && x[p] == hi && x[p + 1] == lo
  {
    assert x[l..p] == (a + b + [hi, lo])[l..p];
  }

  /** A line holds only spaces and hex digits, so never a newline. */
  lemma {:induction false} LineChars(bs: seq<byte>)
    ensures forall i :: 0 <= i < |HexLine(bs)| ==> HexLine(bs)[i] != '\n'
    decreases |bs|
  {
    if bs != [] {
      var m := |bs| - 1;
      LineChars(bs[..m]);
      DigitRoundTrip(bs[m] as int / 16);
      DigitRoundTrip(bs[m] as int % 16);
    }
  }

  /** The layout rules: line length, 50 columns for a full line, and never a newline inside a line. */
  lemma LineLayout(bs: seq<byte>)
    ensures |HexLine(bs)| == LineLen(|bs|)
    ensures |bs| == 16 ==> |HexLine(bs)| == 50
    ensures forall i :: 0 <= i < |HexLine(bs)| ==> HexLine(bs)[i] != '\n'
  {
    LineLength(bs);
    LineChars(bs);
  }

  /** Reads the bytes of a dump line back, starting with byte `j`. */
  function ParseFrom(s: string, j: nat): seq<byte>
    decreases |s| - Pos(j)
  {
    if Pos(j) + 1 >= |s| then [] else [ParseByte(s[Pos(j)], s[Pos(j) + 1])] + ParseFrom(s, j + 1)
  }

  function ParseLine(s: string): seq<byte> {
    ParseFrom(s, 0)
  }

  /** A text of the length of the line of `bs` with the digits of each byte at its columns. */
  predicate Laid(s: string, bs: seq<byte>) {
    |s| == LineLen(|bs|) && forall t :: 0 <= t < |bs| ==> LaidAt(s, bs, t)
  }

  /** The two digits of byte `t` at its columns. */
  predicate LaidAt(s: string, bs: seq<byte>, t: nat)
    requires t < |bs|
  {
    Pos(t) + 1 < |s| && s[Pos(t)] == Hi(bs[t]) && s[Pos(t) + 1] == Lo(bs[t])
  }

  /** A dump line determines its bytes. */
  lemma LineRoundTrip(bs: seq<byte>)
    ensures ParseLine(HexLine(bs)) == bs
  {
    forall t | 0 <= t < |bs|
      ensures LaidAt(HexLine(bs), bs, t)
    {
      LineColumns(bs, t);
    }
    LineLength(bs);
    ParseRest(HexLine(bs), bs, 0);
  }

  lemma {:induction false} ParseRest(s: string, bs: seq<byte>, j: nat)
    requires Laid(s, bs) && j <= |bs|
    ensures ParseFrom(s, j) == bs[j..]
    decreases |bs| - j
  {
    if j < |bs| {
      ParseStep(s, bs, j);
      ParseRest(s, bs, j + 1);
      assert bs[j..] == [bs[j]] + bs[j + 1..];
    } else {
      ParseEnd(s, bs);
    }
  }

  /** Reading at a byte of the line gives that byte, then reading goes on at the next. */
  lemma ParseStep(s: string, bs: seq<byte>, j: nat)
    requires Laid(s, bs) && j < |bs|
    ensures ParseFrom(s, j) == [bs[j]] + ParseFrom(s, j + 1)
  {
    assert LaidAt(s, bs, j);
    ByteRoundTrip(bs[j]);
  }

  /** Reading stops after the last byte of the line. */
  lemma ParseEnd(s: string, bs: seq<byte>)
    requires Laid(s, bs)
    ensures ParseFrom(s, |bs|) == []
  {
    if |bs| > 0 {
      LineLenStep(|bs| - 1);
    }
  }

  /**
    * The loop of `xemit_hex` and its tail: full lines of sixteen, each
    * followed by a newline, while more than sixteen bytes are left, then
    * the rest on a line without a newline.
    */
  function Lines(w: Writer, bs: seq<byte>): (r: Writer)
    ensures r.indent == w.indent && r.inAttribute == w.inAttribute
    ensures Valid(w) ==> Valid(r)
    decreases |bs|
  {
    if |bs| > 16 then Lines(Newline(Raw(w, HexLine(bs[..16]))), bs[16..])
    else if bs == [] then w
    else Raw(w, HexLine(bs))
  }

  /**
    * The writer after `xemit_hex(data, size)`: a newline first when more
    * than sixteen bytes are dumped, and a last newline when the loop ran
    * (`p != data`), which is the same condition.
    */
  function Hex(w: Writer, bs: seq<byte>): (r: Writer)
    ensures r.indent == w.indent && r.inAttribute == w.inAttribute
    ensures Valid(w) ==> Valid(r)
  {
    var w1 := if |bs| > 16 then Newline(w) else w;
    var w2 := Lines(w1, bs);
    if |bs| > 16 then Newline(w2) else w2
  }

  /** The text of a long dump: every line indented to the current level and ended by a newline. */
  function Block(bs: seq<byte>, indent: string): string
    requires bs != []
    decreases |bs|
  {
    if |bs| > 16 then indent + HexLine(bs[..16]) + "\n" + Block(bs[16..], indent)
    else indent + HexLine(bs) + "\n"
  }

  /** An empty buffer writes nothing, not even the pending flush. */
  lemma HexEmpty(w: Writer)
    ensures Hex(w, []) == w
  {
  }

  /** One to sixteen bytes: a single line, inline, with no newline. */
  lemma HexShort(w: Writer, bs: seq<byte>)
    requires 1 <= |bs| <= 16
    ensures Hex(w, bs) == Raw(w, HexLine(bs))
    ensures Raw(w, HexLine(bs)).out == Flushed(w).out + HexLine(bs)
  {
  }

  /**
    * More than sixteen bytes: a newline after whatever was pending, then
    * the lines of sixteen bytes, the last line shorter or full, each
    * indented and ended by a newline; the writer is left at the start of
    * a line.
    */
  lemma HexLong(w: Writer, bs: seq<byte>)
    requires Valid(w) && |bs| > 16
    ensures Hex(w, bs) == w.(out := w.out + Pending(w) + "\n" + Block(bs, Spaces(2 * w.indent)),
                             inTag := false, startOfLine := true, softNewline := false)
  {
    var n := Newline(w);
    assert n == w.(out := w.out + Pending(w) + "\n", inTag := false, startOfLine := true, softNewline := false);
    BlockText(n, bs);
    Assoc(w.out + Pending(w), "\n", Block(bs, Spaces(2 * w.indent)));
  }

  lemma {:induction false} BlockText(w: Writer, bs: seq<byte>)
    requires !w.inTag && w.startOfLine && bs != []
    ensures Newline(Lines(w, bs)) == w.(out := w.out + Block(bs, Spaces(2 * w.indent)), softNewline := false)
    decreases |bs|
  {
    var sp := Spaces(2 * w.indent);
    if |bs| > 16 {
      var line := HexLine(bs[..16]);
      LineAtStart(w, line);
      var n := Newline(Raw(w, line));
      BlockText(n, bs[16..]);
      Assoc(w.out, sp + line + "\n", Block(bs[16..], sp));
    } else {
      LineAtStart(w, HexLine(bs));
    }
  }

  /** A line written at the start of a line: indentation, the text, a newline. */
  lemma LineAtStart(w: Writer, s: string)
    requires !w.inTag && w.startOfLine
    ensures Newline(Raw(w, s)) == w.(out := w.out + (Spaces(2 * w.indent) + s + "\n"), softNewline := false)
  {
    var sp := Spaces(2 * w.indent);
    assert Raw(w, s) == w.(out := w.out + sp + s, startOfLine := false);
    Regroup(w.out, sp, s, "\n");
  }

  /** The gap columns of the line buffer hold the gaps. */
  predicate Blank(s: seq<char>) {
    |s| == 50 && forall j :: 0 <= j < 16 ==> GapAt(s, j)
  }

  /** The columns before byte `j` hold its gap. */
  predicate GapAt(s: seq<char>, j: nat) {
    LineLen(j) <= Pos(j) <= |s| && s[LineLen(j)..Pos(j)] == Gap(j)
  }

  /** The bytes whose line is the text the buffer of `xemit_hex` is declared with, `00 11 22 ... ff`. */
  function TemplateBytes(): (bs: seq<byte>)
    ensures |bs| == 16
  {
    seq(16, i requires 0 <= i < 16 => (17 * i) as byte)
  }

  /** The buffer of `xemit_hex` as declared. */
  const Template: string := HexLine(TemplateBytes())

  /** Every full line, the declared buffer among them, has its gaps in place. */
  lemma FullLineBlank(bs: seq<byte>)
    requires |bs| == 16
    ensures Blank(HexLine(bs))
  {
    LineLength(bs);
    forall j | 0 <= j < 16
      ensures GapAt(HexLine(bs), j)
    {
      LineColumns(bs, j);
    }
  }

  /** Writing a byte's two digit columns keeps every gap. */
  lemma WriteKeepsBlank(s: seq<char>, j: nat, hi: char, lo: char)
    requires Blank(s) && j < 16
    ensures Blank(s[Pos(j) := hi][Pos(j) + 1 := lo])
  {
    var s' := s[Pos(j) := hi][Pos(j) + 1 := lo];
    forall t | 0 <= t < 16
      ensures GapAt(s', t)
    {
      assert GapAt(s, t);
      if t <= j {
        PosMonotone(t, j);
      } else {
        PosMonotone(j + 1, t);
        LineLenStep(j);
      }
      assert s'[LineLen(t)..Pos(t)] == s[LineLen(t)..Pos(t)];
    }
  }

  /** The next byte's digits extend the line held in the buffer. */
  lemma WriteExtends(s: seq<char>, bs: seq<byte>, j: nat)
    requires |s| == 50 && j < 16 && j < |bs|
    requires s[LineLen(j)..Pos(j)] == Gap(j) && s[..LineLen(j)] == HexLine(bs[..j])
    ensures s[Pos(j) := Hi(bs[j])][Pos(j) + 1 := Lo(bs[j])][..LineLen(j + 1)] == HexLine(bs[..j + 1])
  {
    LineLenStep(j);
    LineSnoc(bs, j);
    WritePair(s, LineLen(j), Pos(j), HexLine(bs[..j]), Gap(j), Hi(bs[j]), Lo(bs[j]));
  }

  lemma BlankGap(s: seq<char>, j: nat)
    requires Blank(s) && j < 16
    ensures s[LineLen(j)..Pos(j)] == Gap(j)
  {
    assert GapAt(s, j);
  }

  /** Two characters written right after a prefix and a gap already in place. */
  lemma WritePair(s: seq<char>, l: nat, a: nat, line: string, gap: string, hi: char, lo: char)
    requires l <= a && a + 2 <= |s| && s[..l] == line && s[l..a] == gap
    ensures s[a := hi][a + 1 := lo][..a + 2] == line + gap + [hi, lo]
  {
    assert s[..a] == s[..l] + s[l..a];
  }

  /** `buf[bi] = hex[p[i] >> 4], buf[bi+1] = hex[p[i] & 0xf]`: the buffer now holds one more byte of the line. */
  method PutByte(buf: array<char>, bi: nat, b: byte, ghost j: nat, ghost bs: seq<byte>)
    requires j < 16 && j < |bs| && b == bs[j] && bi == Pos(j)
    requires Blank(buf[..]) && buf[..LineLen(j)] == HexLine(bs[..j])
    modifies buf
    ensures Blank(buf[..]) && buf[..LineLen(j + 1)] == HexLine(bs[..j + 1])
  {
    ghost var before := buf[..];
    WriteKeepsBlank(before, j, Hi(b), Lo(b));
    BlankGap(before, j);
    WriteExtends(before, bs, j);
    buf[bi] := Hi(b);
    buf[bi + 1] := Lo(b);
    assert buf[..] == before[bi := Hi(b)][bi + 1 := Lo(b)];
  }

  /**
    * One pass of the loop of `xemit_hex` that fills the buffer: one more
    * column before bytes 4, 8 and 12, byte `j` written, three columns on.
    */
  method NextByte(buf: array<char>, bi: nat, j: nat, bs: seq<byte>) returns (next: nat)
    requires j < 16 && j < |bs| && (j == 0 ==> bi == 0) && (j > 0 ==> bi == Pos(j - 1) + 3)
    requires Blank(buf[..]) && buf[..LineLen(j)] == HexLine(bs[..j])
    modifies buf
    ensures next == Pos(j) + 3
    ensures Blank(buf[..]) && buf[..LineLen(j + 1)] == HexLine(bs[..j + 1])
  {
    PosStep(j);
    next := bi;
    if j > 0 && j % 4 == 0 {
      next := next + 1;
    }
    PutByte(buf, next, bs[j], j, bs);
    next := next + 3;
  }

  /**
    * Writes the digits of the bytes `bs` (those at `p`) into the line buffer in place,
    * one byte after the other, stepping the column by three and by one
    * more before bytes 4, 8 and 12; returns the length to emit.
    */
  method FillLine(buf: array<char>, bs: seq<byte>) returns (end: nat)
    requires 1 <= |bs| <= 16 && Blank(buf[..])
    modifies buf
    ensures end == LineLen(|bs|) && Blank(buf[..])
    ensures buf[..end] == HexLine(bs)
  {
    var j, bi := 0, 0;
    while j < |bs|
      invariant 0 <= j <= |bs|
      invariant j == 0 ==> bi == 0
      invariant j > 0 ==> bi == Pos(j - 1) + 3
      invariant Blank(buf[..])
      invariant buf[..LineLen(j)] == HexLine(bs[..j])
    {
      bi := NextByte(buf, bi, j, bs);
      j := j + 1;
    }
    LineLenStep(j - 1);
    end := bi - 1;
    assert bs[..j] == bs;
  }

  /** One pass of the loop of `xemit_hex`: a full line, emitted, then a newline. */
  method EmitFullLine(o: XmlOutput, buf: array<char>, bs: seq<byte>)
    requires |bs| == 16 && Blank(buf[..]) && Valid(o.State())
    modifies o, buf
    ensures Blank(buf[..]) && Valid(o.State())
    ensures o.State() == Newline(Raw(old(o.State()), HexLine(bs)))
  {
    var end := FillLine(buf, bs);
    ghost var before := o.State();
    o.EmitRaw(buf[..end]);
    OperationsKeepValid(before, buf[..end], 0);
    o.EmitNewline();
    OperationsKeepValid(Raw(before, buf[..end]), "", 0);
  }

  /** The loop unrolled once, at byte `p`. */
  lemma LinesStep(w: Writer, bs: seq<byte>, p: nat)
    requires p + 16 < |bs|
    ensures Lines(w, bs[p..]) == Lines(Newline(Raw(w, HexLine(bs[p..p + 16]))), bs[p + 16..])
  {
    assert bs[p..][..16] == bs[p..p + 16] && bs[p..][16..] == bs[p + 16..];
  }

  /** The tail of the dump, after the loop. */
  lemma LinesTail(w: Writer, bs: seq<byte>, p: nat)
    requires p <= |bs| <= p + 16
    ensures p < |bs| ==> Lines(w, bs[p..]) == Raw(w, HexLine(bs[p..]))
    ensures p == |bs| ==> Lines(w, bs[p..]) == w
  {
  }

  /** The three parts of the dump: the newline before, the lines, the newline after. */
  lemma HexParts(w: Writer, start: Writer, last: Writer, final: Writer, bs: seq<byte>)
    requires start == if |bs| > 16 then Newline(w) else w
    requires last == Lines(start, bs)
    requires final == if |bs| > 16 then Newline(last) else last
    ensures final == Hex(w, bs)
  {
  }

  /**
    * The loop of `xemit_hex` over the full lines: while more than 16 bytes
    * are left, one line of 16 and a newline; `p` counts the bytes consumed.
    */
  method EmitFullLines(o: XmlOutput, buf: array<char>, bs: seq<byte>) returns (p: nat)
    requires Valid(o.State()) && Blank(buf[..])
    modifies o, buf
    ensures p <= |bs| <= p + 16 && (p == 0 <==> |bs| <= 16)
    ensures Valid(o.State()) && Blank(buf[..])
    ensures Lines(o.State(), bs[p..]) == Lines(old(o.State()), bs)
  {
    var left: nat := |bs|;
    p := 0;
    assert bs[0..] == bs;
    while left > 16
      invariant p + left == |bs| && (p == 0) == (left == |bs|) && (p > 0 ==> |bs| > 16)
      invariant Valid(o.State()) && Blank(buf[..])
      invariant Lines(o.State(), bs[p..]) == Lines(old(o.State()), bs)
      decreases left
    {
      LinesStep(o.State(), bs, p);
      EmitFullLine(o, buf, bs[p..p + 16]);
      p, left := p + 16, left - 16;
    }
  }

  /** `xemit_hex(data, size)` on the writer `o`, `bs` being the `size` bytes at `data`. */
  method XEmitHex(o: XmlOutput, bs: seq<byte>)
    requires Valid(o.State())
    modifies o
    ensures o.State() == Hex(old(o.State()), bs)
  {
    ghost var w0 := o.State();
    if |bs| > 16 { o.EmitNewline(); }
    ghost var start := o.State();
    FullLineBlank(TemplateBytes());
    var buf := new char[50](i requires 0 <= i < 50 => Template[i]);
    assert buf[..] == Template;
    var p := EmitFullLines(o, buf, bs);
    ghost var exit := o.State();
    LinesTail(exit, bs, p);
    if p < |bs| {
      var end := FillLine(buf, bs[p..]);
      o.EmitRaw(buf[..end]);
    }
    ghost var last := o.State();
    assert last == Lines(start, bs);
    if p != 0 {
      OperationsKeepValid(last, "", 0);
      o.EmitNewline();
    }
    HexParts(w0, start, last, o.State(), bs);
  }
}
