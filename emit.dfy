/**
  * The emitters of `dump-v1.cpp`: how a value of each kind is written
  * (`XmlEmitter`), the element helpers `xml0`, `xml1` and `Global`, and the
  * renderers of node references (`@id`), array slots (`a[i]`), fields
  * (`lhs.field`) and source locations (`"file":line:column`).
  */
module Emit {

  import opened Wrappers
  import opened Text
  import opened Xml
  import opened Intern

  /** The writer and the interner: writing a node reference interns it. */
  datatype Sink = Sink(w: Writer, tb: Table)

  function Open(k: Sink, name: string): Sink {
    k.(w := OpenTag(k.w, name))
  }

  function Close(k: Sink, name: string): Sink
    requires k.w.indent > 0
  {
    k.(w := CloseTag(k.w, name))
  }

  function OpenA(k: Sink, name: string): Sink {
    k.(w := OpenAttr(k.w, name))
  }

  function CloseA(k: Sink): Sink {
    k.(w := CloseAttr(k.w))
  }

  /** `XmlEmitter<const char *>`: `emit_string`. */
  function Chars(k: Sink, s: string): Sink {
    k.(w := Str(k.w, s))
  }

  /** `XmlEmitter` of an unsigned integer: `%ju` through the output file. */
  function Unsigned(k: Sink, n: nat): Sink {
    k.(w := Number(k.w, n))
  }

  /** `XmlEmitter<const_tree>`: `@`, then the id `intern` gives the node. */
  function TreeRef(k: Sink, t: Ref): Sink {
    var (tb, id) := Insert(k.tb, t);
    Sink(Number(Str(k.w, "@"), id), tb)
  }

  /** How a node reference reads in the output. */
  function RefText(id: nat): string {
    "@" + Decimal(id)
  }

  /** Writing a reference is writing the text of its id, and interns it. */
  lemma TreeRefText(k: Sink, t: Ref)
    ensures TreeRef(k, t).w == Str(k.w, RefText(Insert(k.tb, t).1))
    ensures TreeRef(k, t).tb == Insert(k.tb, t).0
  {
    var d := Decimal(Insert(k.tb, t).1);
    DigitsArePlainAt(Insert(k.tb, t).1);
    EscapeChar('@');
    StrPieces(k.w, "@", d);
  }

  /** Two pieces that need no escaping, written as one string or one after the other. */
  lemma StrPieces(w: Writer, a: string, b: string)
    requires Escape(a) == a && Escape(b) == b && a != []
    ensures Str(w, a + b) == Raw(Raw(w, a), b)
  {
    EscapeAppend(a, b);
    StrIsRaw(w, a + b);
    RawConcat(w, a, b);
  }

  lemma StrIsRaw(w: Writer, s: string)
    requires Escape(s) == s && s != []
    ensures Str(w, s) == Raw(w, s)
  {
  }

  lemma DigitsArePlainAt(n: nat)
    ensures Escape(Decimal(n)) == Decimal(n) && |Decimal(n)| > 0
  {
    DecimalRoundTrip(n);
    DigitsArePlain(Decimal(n));
  }

  /** A number written through the output file reads like the same digits written as a string. */
  lemma UnsignedText(w: Writer, n: nat)
    ensures Number(w, n) == Str(w, Decimal(n))
  {
    DigitsArePlainAt(n);
  }

  /**
    * The text of a reference names its node: the id read back from it is
    * the node's place in the interned list.
    */
  lemma RefRoundTrip(tb: Table, t: Ref)
    requires Consistent(tb)
    ensures var (tb', id) := Insert(tb, t);
      && RefText(id)[0] == '@'
      && AllDigits(RefText(id)[1..])
      && ParseDecimal(RefText(id)[1..]) < |tb'.list|
      && tb'.list[ParseDecimal(RefText(id)[1..])] == t
  {
    var (tb', id) := Insert(tb, t);
    DecimalRoundTrip(id);
    assert RefText(id)[1..] == Decimal(id);
    InsertFound(tb, t);
  }

  /** The index of an `index_pair`: an integer, or a node (as in `alias_pairs`). */
  datatype Index = At(n: nat) | AtTree(t: Ref)

  /** The value of a `name` attribute of `<global>`: a name, `index_pair` or `field_pair` of one. */
  datatype GlobalName =
    | Named(name: string)
    | Slot(base: string, index: Index)
    | SlotField(base: string, at: nat, field: string)

  function AnIndex(k: Sink, i: Index): Sink {
    match i
    case At(n) => Unsigned(k, n)
    case AtTree(t) => TreeRef(k, t)
  }

  /** `XmlEmitter<index_pair>`: the array, `[`, the index, `]`. */
  function IndexPair(k: Sink, base: string, i: Index): Sink {
    Chars(AnIndex(Chars(Chars(k, base), "["), i), "]")
  }

  /** `XmlEmitter<field_pair>`: the left-hand side, `.`, the field. */
  function FieldPair(k: Sink, base: string, at: nat, field: string): Sink {
    Chars(Chars(IndexPair(k, base, At(at)), "."), field)
  }

  function Name(k: Sink, g: GlobalName): Sink {
    match g
    case Named(name) => Chars(k, name)
    case Slot(base, i) => IndexPair(k, base, i)
    case SlotField(base, at, field) => FieldPair(k, base, at, field)
  }

  /** Nothing pending: neither a `>` nor indentation is owed, so every write lands as it is. */
  predicate Settled(w: Writer) {
    Valid(w) && !w.inTag && !w.startOfLine
  }

  /** Inside an attribute value every piece is written as it is escaped, with nothing pending. */
  predicate InValue(w: Writer) {
    Settled(w) && w.inAttribute
  }

  /** `k` with `s` appended to the output and nothing else changed. */
  function Appended(k: Sink, s: string): Sink {
    k.(w := k.w.(out := k.w.out + s))
  }

  lemma AppendedTwice(k: Sink, a: string, b: string)
    ensures Appended(Appended(k, a), b) == Appended(k, a + b)
  {
    assert k.w.out + a + b == k.w.out + (a + b);
  }

  lemma CharsSettled(k: Sink, s: string)
    requires Settled(k.w)
    ensures Chars(k, s) == Appended(k, Escape(s))
  {
    StrWhenSettled(k.w, s);
  }

  lemma CharsInValue(k: Sink, s: string)
    requires InValue(k.w)
    ensures Chars(k, s) == k.(w := k.w.(out := k.w.out + Escape(s)))
  {
    CharsSettled(k, s);
  }

  lemma UnsignedSettled(k: Sink, n: nat)
    requires Settled(k.w)
    ensures Unsigned(k, n) == Appended(k, Decimal(n))
  {
    RawWhenSettled(k.w, Decimal(n));
  }

  lemma UnsignedInValue(k: Sink, n: nat)
    requires InValue(k.w)
    ensures Unsigned(k, n) == k.(w := k.w.(out := k.w.out + Decimal(n)))
  {
    UnsignedSettled(k, n);
  }

  lemma TreeRefInValue(k: Sink, t: Ref)
    requires InValue(k.w)
    ensures TreeRef(k, t) == Sink(k.w.(out := k.w.out + RefText(Insert(k.tb, t).1)), Insert(k.tb, t).0)
  {
    var id := Insert(k.tb, t).1;
    var w1 := k.w.(out := k.w.out + "@");
    assert Str(k.w, "@") == w1 by {
      EscapeChar('@');
      RawInAttribute(k.w, "@");
    }
    assert Number(w1, id) == w1.(out := w1.out + Decimal(id)) by {
      RawInAttribute(w1, Decimal(id));
    }
    assert w1.out + Decimal(id) == k.w.out + RefText(id);
  }

  /** The text of an index, given the id it interns to when it is a node. */
  function IndexText(i: Index, tb: Table): string {
    match i
    case At(n) => Decimal(n)
    case AtTree(t) => RefText(Insert(tb, t).1)
  }

  function IndexTable(i: Index, tb: Table): Table {
    match i
    case At(_) => tb
    case AtTree(t) => Insert(tb, t).0
  }

  /** The index of an `index_pair` as it is written inside an attribute value. */
  lemma AnIndexInValue(k: Sink, i: Index)
    requires InValue(k.w)
    ensures AnIndex(k, i) == Appended(k, IndexText(i, k.tb)).(tb := IndexTable(i, k.tb))
  {
    match i
    case At(n) => UnsignedInValue(k, n);
    case AtTree(t) => TreeRefInValue(k, t);
  }

  /** Characters written after `pre` inside an attribute value. */
  lemma CharsAfter(k: Sink, pre: string, s: string)
    requires InValue(k.w)
    ensures Chars(Appended(k, pre), s) == Appended(k, pre + Escape(s))
  {
    CharsInValue(Appended(k, pre), s);
    AppendedTwice(k, pre, Escape(s));
  }

  /** An index written after `pre` inside an attribute value. */
  lemma AnIndexAfter(k: Sink, pre: string, i: Index)
    requires InValue(k.w)
    ensures AnIndex(Appended(k, pre), i) == Appended(k, pre + IndexText(i, k.tb)).(tb := IndexTable(i, k.tb))
  {
    AnIndexInValue(Appended(k, pre), i);
    AppendedTwice(k, pre, IndexText(i, k.tb));
  }

  /** `index_pair{array, i}` reads `array[i]`. */
  lemma IndexPairText(k: Sink, base: string, i: Index)
    requires InValue(k.w)
    ensures IndexPair(k, base, i)
      == Sink(k.w.(out := k.w.out + (Escape(base) + "[" + IndexText(i, k.tb) + "]")), IndexTable(i, k.tb))
  {
    var x := IndexText(i, k.tb);
    var k1 := Appended(k, Escape(base));
    assert Chars(k, base) == k1 by { CharsInValue(k, base); }
    var k2 := Appended(k, Escape(base) + "[");
    assert Chars(k1, "[") == k2 by { CharsAfter(k, Escape(base), "["); EscapeChar('['); }
    var k3 := Appended(k, Escape(base) + "[" + x).(tb := IndexTable(i, k.tb));
    assert AnIndex(k2, i) == k3 by { AnIndexAfter(k, Escape(base) + "[", i); }
    var k4 := k3.(tb := k.tb);
    assert Chars(k3, "]") == Appended(k4, "]").(tb := IndexTable(i, k.tb)) by {
      EscapeChar(']');
      CharsInValue(k3, "]");
    }
    assert Appended(k4, "]") == Appended(k, Escape(base) + "[" + x + "]") by {
      AppendedTwice(k, Escape(base) + "[" + x, "]");
    }
  }

  /** `field_pair{index_pair{array, at}, field}` reads `array[at].field`. */
  lemma FieldPairText(k: Sink, base: string, at: nat, field: string)
    requires InValue(k.w)
    ensures FieldPair(k, base, at, field)
      == k.(w := k.w.(out := k.w.out + (Escape(base) + "[" + Decimal(at) + "]" + "." + Escape(field))))
  {
    var p := Escape(base) + "[" + Decimal(at) + "]";
    IndexPairText(k, base, At(at));
    var k1 := Appended(k, p);
    assert IndexPair(k, base, At(at)) == k1;
    CharsInValue(k1, ".");
    EscapeChar('.');
    AppendedTwice(k, p, ".");
    CharsInValue(Appended(k, p + "."), field);
    AppendedTwice(k, p + ".", Escape(field));
  }

  /**
    * `expanded_location`, as GCC's line table expands a location: the
    * file (null when unknown), line, column and whether the file is a
    * system header.
    */
  datatype Expanded = Expanded(file: Option<string>, line: nat, column: nat, sysp: bool)

  /**
    * `XmlEmitter<expanded_location>`: the file between `<` and `>` for a
    * system header, between quotes otherwise, `(null)` for no file, then
    * `:line:column`; every piece goes through `emit_string`, so the
    * delimiters are escaped too.
    */
  function Location(k: Sink, e: Expanded): Sink {
    var k1 := Chars(k, OpenQuote(e));
    var k2 := Chars(k1, FileName(e));
    var k3 := Chars(k2, CloseQuote(e));
    var k4 := Unsigned(Chars(k3, ":"), e.line);
    Unsigned(Chars(k4, ":"), e.column)
  }

  function OpenQuote(e: Expanded): string {
    if e.sysp then "<" else "\""
  }

  function CloseQuote(e: Expanded): string {
    if e.sysp then ">" else "\""
  }

  /** `obj.file ?: "(null)"`. */
  function FileName(e: Expanded): string {
    if e.file.Some? then e.file.value else "(null)"
  }

  /** The position part, `:line:column`. */
  function Position(e: Expanded): string {
    ":" + Decimal(e.line) + ":" + Decimal(e.column)
  }

  /** The text of a location once written. */
  function LocationText(e: Expanded): string {
    (if e.sysp then "&lt;" else "&quot;") + Escape(FileName(e)) + (if e.sysp then "&gt;" else "&quot;") + Position(e)
  }

  lemma QuotesEscaped(e: Expanded)
    ensures Escape(OpenQuote(e)) == if e.sysp then "&lt;" else "&quot;"
    ensures Escape(CloseQuote(e)) == if e.sysp then "&gt;" else "&quot;"
  {
    EscapeChar(OpenQuote(e)[0]);
    assert OpenQuote(e) == [OpenQuote(e)[0]];
    EscapeChar(CloseQuote(e)[0]);
    assert CloseQuote(e) == [CloseQuote(e)[0]];
  }

  /** The position is digits and colons only, so escaping leaves it alone. */
  lemma PositionPlain(e: Expanded)
    ensures Escape(Position(e)) == Position(e)
  {
    DecimalRoundTrip(e.line);
    DecimalRoundTrip(e.column);
    EscapePlain(Position(e));
  }

  /** The position, written piece by piece with nothing pending. */
  lemma PositionWrites(k: Sink, e: Expanded)
    requires Settled(k.w)
    ensures Unsigned(Chars(Unsigned(Chars(k, ":"), e.line), ":"), e.column) == Appended(k, Position(e))
  {
    EscapeChar(':');
    CharsSettled(k, ":");
    var k1 := Appended(k, ":");
    UnsignedSettled(k1, e.line);
    AppendedTwice(k, ":", Decimal(e.line));
    var k2 := Appended(k, ":" + Decimal(e.line));
    CharsSettled(k2, ":");
    AppendedTwice(k, ":" + Decimal(e.line), ":");
    var k3 := Appended(k, ":" + Decimal(e.line) + ":");
    UnsignedSettled(k3, e.column);
    AppendedTwice(k, ":" + Decimal(e.line) + ":", Decimal(e.column));
  }

  /** In element content, with nothing left to flush, a location writes its text. */
  lemma LocationWrites(k: Sink, e: Expanded)
    requires Settled(k.w)
    ensures Location(k, e) == Appended(k, LocationText(e))
  {
    QuotesEscaped(e);
    var o, f, c := Escape(OpenQuote(e)), Escape(FileName(e)), Escape(CloseQuote(e));
    CharsSettled(k, OpenQuote(e));
    var k1 := Appended(k, o);
    CharsSettled(k1, FileName(e));
    AppendedTwice(k, o, f);
    var k2 := Appended(k, o + f);
    CharsSettled(k2, CloseQuote(e));
    AppendedTwice(k, o + f, c);
    var k3 := Appended(k, o + f + c);
    PositionWrites(k3, e);
    AppendedTwice(k, o + f + c, Position(e));
  }

  /**
    * The location text names the file and the position: unescaped, it is
    * the file between its delimiters, then `:line:column`.
    */
  lemma LocationRoundTrip(e: Expanded)
    ensures Unescape(LocationText(e)) == OpenQuote(e) + FileName(e) + CloseQuote(e) + Position(e)
  {
    var open, file, close, tail := OpenQuote(e), FileName(e), CloseQuote(e), Position(e);
    QuotesEscaped(e);
    PositionPlain(e);
    EscapeAppend(open, file);
    EscapeAppend(open + file, close);
    EscapeAppend(open + file + close, tail);
    assert LocationText(e) == Escape(open + file + close + tail);
    EscapeRoundTrip(open + file + close + tail);
  }

  /** `xml0(tag)`: an element with nothing in it. */
  function Marker(k: Sink, name: string): Sink {
    Close(Open(k, name), name)
  }

  /** `xml0(tag, k, v)` for a node `v`: the element and one attribute holding the reference. */
  function MarkerRef(k: Sink, name: string, key: string, t: Ref): Sink {
    Close(CloseA(TreeRef(OpenA(Open(k, name), key), t)), name)
  }

  /** `xml1(tag, v)` for an unsigned `v`. */
  function ElementNat(k: Sink, name: string, v: nat): Sink {
    Close(Unsigned(Open(k, name), v), name)
  }

  /** `xml1(tag, v)` for a node `v`. */
  function ElementRef(k: Sink, name: string, t: Ref): Sink {
    Close(TreeRef(Open(k, name), t), name)
  }

  /** `xml1(tag, s)` for a string `s`, such as the name of a tree code. */
  function ElementText(k: Sink, name: string, s: string): Sink {
    Close(Chars(Open(k, name), s), name)
  }

  /** `xml1(tag, expand_location(...))`. */
  function ElementLocation(k: Sink, name: string, e: Expanded): Sink {
    Close(Location(Open(k, name), e), name)
  }

  /** `Xml(tag, k, v)` for an unsigned `v`: the element is left open. */
  function OpenWithNat(k: Sink, name: string, key: string, v: nat): Sink {
    CloseA(Unsigned(OpenA(Open(k, name), key), v))
  }

  /** `Xml(tag, k, v)` for a node `v`: the element is left open. */
  function OpenWithRef(k: Sink, name: string, key: string, t: Ref): Sink {
    CloseA(TreeRef(OpenA(Open(k, name), key), t))
  }

  /** `Global xml(name); xemit(v);` for a node `v`: `<global name="...">@id</global>`. */
  function GlobalEntry(k: Sink, g: GlobalName, t: Ref): Sink {
    Close(TreeRef(CloseA(Name(OpenA(Open(k, "global"), "name"), g)), t), "global")
  }

  /** The elements of the model, as the tree serialisation writes them. */
  function MarkerNode(name: string): Node {
    Element(name, [], NoContent)
  }

  function TextNode(name: string, text: string): Node {
    Element(name, [], TextContent(text))
  }

  /** `xml0(tag)` at the start of a line writes `<tag/>` on a line of its own. */
  lemma MarkerText(k: Sink, name: string, d: nat)
    requires AtLineStart(k.w, d) && Valid(k.w)
    ensures Marker(k, name) == k.(w := k.w.(out := k.w.out + Render(MarkerNode(name), d)))
  {
    NodeText(k.w, MarkerNode(name), d);
  }

  /** `xml1(tag, v)` at the start of a line writes `<tag>v</tag>` on a line of its own. */
  lemma ElementNatText(k: Sink, name: string, v: nat, d: nat)
    requires AtLineStart(k.w, d) && Valid(k.w)
    ensures ElementNat(k, name, v) == k.(w := k.w.(out := k.w.out + Render(TextNode(name, Decimal(v)), d)))
  {
    assert ElementNat(k, name, v) == ElementText(k, name, Decimal(v)) by {
      UnsignedText(OpenTag(k.w, name), v);
    }
    assert ElementText(k, name, Decimal(v)).w == WriteNode(k.w, TextNode(name, Decimal(v)));
    NodeText(k.w, TextNode(name, Decimal(v)), d);
  }

  /** `xml1(tag, t)` for a node at the start of a line writes `<tag>@id</tag>` and interns `t`. */
  lemma ElementRefText(k: Sink, name: string, t: Ref, d: nat)
    requires AtLineStart(k.w, d) && Valid(k.w)
    ensures ElementRef(k, name, t)
      == Sink(k.w.(out := k.w.out + Render(TextNode(name, RefText(Insert(k.tb, t).1)), d)), Insert(k.tb, t).0)
  {
    TreeRefText(Open(k, name), t);
    NodeText(k.w, TextNode(name, RefText(Insert(k.tb, t).1)), d);
  }

  /** An element with one attribute and no content. */
  function AttrNode(name: string, key: string, value: string): Node {
    Element(name, [Attribute(key, value)], NoContent)
  }

  /** `xml0(tag, k, t)` for a node at the start of a line writes `<tag k="@id"/>` and interns `t`. */
  lemma MarkerRefText(k: Sink, name: string, key: string, t: Ref, d: nat)
    requires AtLineStart(k.w, d) && Valid(k.w)
    ensures MarkerRef(k, name, key, t)
      == Sink(k.w.(out := k.w.out + Render(AttrNode(name, key, RefText(Insert(k.tb, t).1)), d)), Insert(k.tb, t).0)
  {
    var v := RefText(Insert(k.tb, t).1);
    var started := OpenTag(k.w, name);
    TreeRefText(OpenA(Open(k, name), key), t);
    assert WriteAttrs(started, [Attribute(key, v)]) == CloseAttr(Str(OpenAttr(started, key), v)) by {
      assert [Attribute(key, v)][1..] == [];
    }
    NodeText(k.w, AttrNode(name, key, v), d);
  }
}
