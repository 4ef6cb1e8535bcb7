/**
  * The streaming XML writer of `xml.hpp`/`xml.cpp`: an append-only
  * character sink driven by five pieces of state (`in_tag`,
  * `in_attribute`, `start_of_line`, `soft_newline`, `current_indent`),
  * with scoped tag and attribute objects whose construction and release
  * open and close elements.
  */
module Xml {
  import opened Text

  /** The only characters `emit_string` accepts. */
  predicate Printable(c: char) {
    ' ' <= c <= '~'
  }

  predicate AllPrintable(s: string) {
    forall i :: 0 <= i < |s| ==> Printable(s[i])
  }

  /** The four characters that are always written as entities. */
  predicate Special(c: char) {
    c == '<' || c == '>' || c == '&' || c == '"'
  }

  function Entity(c: char): string {
    match c
    case '<' => "&lt;"
    case '>' => "&gt;"
    case '&' => "&amp;"
    case '"' => "&quot;"
    case _ => [c]
  }

  /** The text of `s` with each character replaced by `f` of it. */
  function Flat(f: char -> string, s: string): string
    decreases |s|
  {
    if s == [] then [] else Flat(f, s[..|s| - 1]) + f(s[|s| - 1])
  }

  lemma {:induction false} FlatAppend(f: char -> string, a: string, b: string)
    ensures Flat(f, a + b) == Flat(f, a) + Flat(f, b)
    decreases |b|
  {
    if b == [] {
      assert a + b == a;
    } else {
      var b', c := b[..|b| - 1], b[|b| - 1];
      assert Flat(f, a + b) == Flat(f, a + b') + f(c) by {
        var ab := a + b;
        assert ab[..|ab| - 1] == a + b' && ab[|ab| - 1] == c;
      }
      FlatAppend(f, a, b');
    }
  }

  /** What `emit_string(s)` writes after the pending flush. */
  function Escape(s: string): string {
    Flat(Entity, s)
  }

  lemma EscapeAppend(a: string, b: string)
    ensures Escape(a + b) == Escape(a) + Escape(b)
  {
    FlatAppend(Entity, a, b);
  }

  /** A one-character string is escaped as its entity. */
  lemma EscapeChar(c: char)
    ensures Escape([c]) == Entity(c)
  {
    assert [c][..0] == [];
    assert Flat(Entity, [c]) == Flat(Entity, []) + Entity(c);
  }

  /** A run without special characters is copied verbatim. */
  lemma {:induction false} EscapePlain(s: string)
    requires forall i :: 0 <= i < |s| ==> !Special(s[i])
    ensures Escape(s) == s
    decreases |s|
  {
    if s != [] {
      EscapePlain(s[..|s| - 1]);
    }
  }

  lemma DigitsArePlain(s: string)
    requires AllDigits(s)
    ensures Escape(s) == s
  {
    EscapePlain(s);
  }

  /** Reads entities back; a stray `&` stands for itself. */
  function Unescape(t: string): string
    decreases |t|
  {
    if t == [] then []
    else if t[0] == '&' && |t| >= 4 && t[..4] == "&lt;" then "<" + Unescape(t[4..])
    else if t[0] == '&' && |t| >= 4 && t[..4] == "&gt;" then ">" + Unescape(t[4..])
    else if t[0] == '&' && |t| >= 5 && t[..5] == "&amp;" then "&" + Unescape(t[5..])
    else if t[0] == '&' && |t| >= 6 && t[..6] == "&quot;" then "\"" + Unescape(t[6..])
    else [t[0]] + Unescape(t[1..])
  }

  /** One entity (or plain character) reads back as the character it stands for. */
  lemma UnescapeEntity(c: char, rest: string)
    ensures Unescape(Entity(c) + rest) == [c] + Unescape(rest)
  {
    var t := Entity(c) + rest;
    if c == '<' {
      assert t[..4] == "&lt;" && t[4..] == rest;
    } else if c == '>' {
      assert t[..4] == "&gt;" && t[4..] == rest;
    } else if c == '&' {
      assert t[..5] == "&amp;" && t[5..] == rest;
      assert t[..4][1] == 'a';
    } else if c == '"' {
      assert t[..6] == "&quot;" && t[6..] == rest;
      assert t[..4][1] == 'q' && t[..5][1] == 'q';
    } else {
      assert t[0] == c && t[1..] == rest;
    }
  }

  /** Escaping loses nothing: the text written for `s` reads back as `s`, in order. */
  lemma {:induction false} EscapeRoundTrip(s: string)
    ensures Unescape(Escape(s)) == s
    decreases |s|
  {
    if s != [] {
      var c, rest := s[0], s[1..];
      assert s == [c] + rest;
      EscapeAppend([c], rest);
      EscapeChar(c);
      EscapeRoundTrip(rest);
      UnescapeEntity(c, Escape(rest));
    }
  }

  /**
    * The output promise of `xml.hpp`: escaped printable text is printable
    * and holds no raw `<`, `>` or `"`; every `&` starts one of the four
    * entities.
    */
  lemma {:induction false} EscapeSafe(s: string)
    requires AllPrintable(s)
    ensures AllPrintable(Escape(s))
    ensures forall i :: 0 <= i < |Escape(s)| ==> Escape(s)[i] != '<' && Escape(s)[i] != '>' && Escape(s)[i] != '"'
    ensures forall i :: 0 <= i < |Escape(s)| && Escape(s)[i] == '&' ==> EntityAt(Escape(s), i)
    decreases |s|
  {
    if s != [] {
      var front, c := s[..|s| - 1], s[|s| - 1];
      EscapeSafe(front);
      var t := Escape(front);
      assert Escape(s) == t + Entity(c);
      forall i | 0 <= i < |Escape(s)| && Escape(s)[i] == '&'
        ensures EntityAt(Escape(s), i)
      {
        if i < |t| {
          EntityAtAppend(t, Entity(c), i);
        } else {
          EntityAtEnd(t, c, i);
        }
      }
    }
  }

  /** An entity starts at `i` of `t`. */
  predicate EntityAt(t: string, i: nat) {
    || (i + 4 <= |t| && (t[i..i + 4] == "&lt;" || t[i..i + 4] == "&gt;"))
    || (i + 5 <= |t| && t[i..i + 5] == "&amp;")
    || (i + 6 <= |t| && t[i..i + 6] == "&quot;")
  }

  lemma EntityAtAppend(t: string, u: string, i: nat)
    requires i < |t| && EntityAt(t, i)
    ensures EntityAt(t + u, i)
  {
    var tu := t + u;
    if i + 4 <= |t| {
      assert tu[i..i + 4] == t[i..i + 4];
    }
    if i + 5 <= |t| {
      assert tu[i..i + 5] == t[i..i + 5];
    }
    if i + 6 <= |t| {
      assert tu[i..i + 6] == t[i..i + 6];
    }
  }

  /** In the text of one character, an `&` can only be the start of its entity. */
  lemma EntityAtEnd(t: string, c: char, i: nat)
    requires |t| <= i < |t| + |Entity(c)| && (t + Entity(c))[i] == '&'
    ensures EntityAt(t + Entity(c), i)
  {
    var u := t + Entity(c);
    assert u[|t|..] == Entity(c);
    assert u[i] == Entity(c)[i - |t|];
    if Special(c) {
      assert i == |t|;
      assert u[i..i + |Entity(c)|] == Entity(c);
    }
  }

  function Spaces(n: nat): (s: string)
    ensures |s| == n
  {
    seq(n, _ => ' ')
  }

  lemma SpacesAdd(a: nat, b: nat)
    ensures Spaces(a) + Spaces(b) == Spaces(a + b)
  {
  }

  /** The XML declaration written first (38 characters). */
  const Header: string := "<?xml version=\"1.0\" encoding=\"ascii\"?>"

  /**
    * The five pieces of writer state together with everything written so
    * far; `indent` counts open elements, each worth two spaces.
    */
  datatype Writer = Writer(
    out: string,
    inTag: bool,
    inAttribute: bool,
    startOfLine: bool,
    softNewline: bool,
    indent: nat)

  /**
    * The writer's invariant: a tag whose `>` is still pending and an open
    * attribute exclude each other, and a pending `>` is never at the start
    * of a line (the assertion in `flush`).
    */
  predicate Valid(w: Writer) {
    && !(w.inTag && w.inAttribute)
    && (w.inTag ==> !w.startOfLine)
  }

  /** What `flush` owes the output: the lazy `>`, and the indentation at the start of a line. */
  function Pending(w: Writer): string {
    (if w.inTag then ">" else "") + (if w.startOfLine then Spaces(2 * w.indent) else "")
  }

  /** The state after `flush`. */
  function Flushed(w: Writer): Writer {
    w.(out := w.out + Pending(w), inTag := false, startOfLine := false)
  }

  /** The state after `emit_raw(s)`: a flush, then `s` as it is. */
  function Raw(w: Writer, s: string): Writer {
    var f := Flushed(w);
    f.(out := f.out + s)
  }

  /** The state after `emit_newline`. */
  function Newline(w: Writer): Writer {
    Raw(w, "\n").(startOfLine := true, softNewline := false)
  }

  /** The state after `emit_string(s)`: nothing at all for the empty string. */
  function Str(w: Writer, s: string): Writer {
    if s == [] then w else Raw(w, Escape(s))
  }

  /** The state after writing the decimal digits of `n` through the output file. */
  function Number(w: Writer, n: nat): Writer {
    Raw(w, Decimal(n))
  }

  /** The state the constructor leaves: the declaration and a newline written. */
  function Start(): Writer {
    Newline(Raw(Writer([], false, false, true, false, 0), Header))
  }

  /** The state after constructing a tag scope for `t`. */
  function OpenTag(w: Writer, t: string): Writer {
    var w1 := if w.softNewline then Newline(w) else Flushed(w);
    var w2 := Str(Raw(w1, "<"), t);
    w2.(inTag := true, softNewline := true, indent := w.indent + 1)
  }

  /** The state after releasing the tag scope for `t`. */
  function CloseTag(w: Writer, t: string): Writer
    requires w.indent > 0
  {
    var w1 := w.(indent := w.indent - 1);
    var w2 := if w1.inTag then Raw(w1.(inTag := false), "/>") else Raw(Str(Raw(w1, "</"), t), ">");
    Newline(w2)
  }

  /** The state after constructing an attribute scope for `a`. */
  function OpenAttr(w: Writer, a: string): Writer {
    Raw(Str(Raw(w.(inTag := false, inAttribute := true), " "), a), "=\"")
  }

  /** The state after releasing an attribute scope. */
  function CloseAttr(w: Writer): Writer {
    Raw(w, "\"").(inAttribute := false, inTag := true)
  }

  /** Construction: the declaration and a newline, then indent 0 with nothing open. */
  lemma StartState()
    ensures Start() == Writer(Header + "\n", false, false, true, false, 0)
    ensures Valid(Start())
  {
    assert Spaces(0) == [];
  }

  /**
    * `flush` writes the pending `>` or, at the start of a line, the
    * indentation (never both), after which nothing is pending and a
    * second flush writes nothing.
    */
  lemma FlushSettles(w: Writer)
    requires Valid(w)
    ensures Pending(w) == if w.inTag then ">" else if w.startOfLine then Spaces(2 * w.indent) else ""
    ensures Flushed(w).out == w.out + Pending(w)
    ensures Pending(Flushed(w)) == [] && Flushed(Flushed(w)) == Flushed(w)
    ensures Valid(Flushed(w))
  {
    var f := Flushed(w);
    assert f.out + Pending(f) == f.out;
  }

  /** Every operation keeps the writer's invariant, given the demands its assertions make. */
  lemma OperationsKeepValid(w: Writer, s: string, n: nat)
    requires Valid(w)
    ensures Valid(Flushed(w)) && Valid(Raw(w, s)) && Valid(Newline(w)) && Valid(Str(w, s)) && Valid(Number(w, n))
    ensures !w.inAttribute ==> Valid(OpenTag(w, s))
    ensures !w.inAttribute && w.indent > 0 ==> Valid(CloseTag(w, s))
    ensures w.inTag && !w.inAttribute ==> Valid(OpenAttr(w, s))
    ensures !w.inTag && w.inAttribute ==> Valid(CloseAttr(w))
  {
  }

  /** Writing text or a number keeps the open elements and attribute as they were, and a valid writer valid. */
  lemma WriteKeepsScopes(w: Writer, text: string, n: nat)
    ensures Raw(w, text).inAttribute == w.inAttribute && Raw(w, text).indent == w.indent && Valid(Raw(w, text))
    ensures Number(w, n).inAttribute == w.inAttribute && Number(w, n).indent == w.indent && Valid(Number(w, n))
    ensures Str(w, text).inAttribute == w.inAttribute && Str(w, text).indent == w.indent
    ensures Valid(w) ==> Valid(Str(w, text))
  {
  }

  /** The scopes each tag and attribute operation leaves. */
  lemma TagScopes(w: Writer, t: string)
    ensures OpenTag(w, t).inAttribute == w.inAttribute && OpenTag(w, t).indent == w.indent + 1
    ensures !w.inAttribute ==> Valid(OpenTag(w, t)) && OpenTag(w, t).inTag
    ensures w.indent > 0 ==> CloseTag(w, t).inAttribute == w.inAttribute && CloseTag(w, t).indent == w.indent - 1
    ensures w.indent > 0 && !w.inAttribute ==> Valid(CloseTag(w, t))
    ensures OpenAttr(w, t).inAttribute && !OpenAttr(w, t).inTag && OpenAttr(w, t).indent == w.indent
    ensures !CloseAttr(w).inAttribute && CloseAttr(w).indent == w.indent && Valid(CloseAttr(w)) && CloseAttr(w).inTag
  {
  }

  /** Once flushed, raw text lands as it is and nothing else changes. */
  lemma RawWhenSettled(w: Writer, s: string)
    requires !w.inTag && !w.startOfLine
    ensures Raw(w, s) == w.(out := w.out + s)
  {
    assert w.out + Pending(w) == w.out;
  }

  /** Two raw writes in a row are one raw write of both. */
  lemma RawConcat(w: Writer, a: string, b: string)
    ensures Raw(w, a + b) == Raw(Raw(w, a), b)
  {
    var f := Flushed(w);
    var r := f.(out := f.out + a);
    assert Raw(w, a) == r;
    assert Pending(r) == [];
    assert Flushed(r) == r;
    assert r.out + b == f.out + (a + b);
  }

  /** Once flushed, a string lands as its escaped text and nothing else changes. */
  lemma StrWhenSettled(w: Writer, s: string)
    requires !w.inTag && !w.startOfLine
    ensures Str(w, s) == w.(out := w.out + Escape(s))
  {
    if s == [] {
      assert w.out + Escape(s) == w.out;
    } else {
      assert w.out + Pending(w) == w.out;
    }
  }

  /** Non-empty text right after a start tag first completes it with `>`. */
  lemma StrAfterOpen(w: Writer, s: string)
    requires w.inTag && !w.startOfLine && s != []
    ensures Str(w, s) == w.(out := w.out + ">" + Escape(s), inTag := false)
  {
    var f := w.(out := w.out + ">", inTag := false);
    assert Flushed(w) == f;
    RawWhenSettled(f, Escape(s));
  }

  /** Inside an attribute value nothing is pending, so every write lands as it is. */
  lemma RawInAttribute(w: Writer, s: string)
    requires Valid(w) && w.inAttribute && !w.startOfLine
    ensures Raw(w, s) == w.(out := w.out + s)
  {
    assert w.out + Pending(w) == w.out;
  }

  /**
    * Opening a tag: the pending flush, then a newline and fresh
    * indentation when the previous action was also a tag open, then `<`
    * and the escaped name; the `>` stays pending and the indent grows by one.
    */
  lemma OpenTagText(w: Writer, t: string)
    requires Valid(w) && !w.inAttribute
    ensures OpenTag(w, t).out
      == w.out + Pending(w) + (if w.softNewline then "\n" + Spaces(2 * w.indent) else "") + "<" + Escape(t)
    ensures var r := OpenTag(w, t);
      r.inTag && r.softNewline && !r.startOfLine && !r.inAttribute && r.indent == w.indent + 1
  {
    var lead := if w.softNewline then "\n" + Spaces(2 * w.indent) else "";
    var w1 := if w.softNewline then Newline(w) else Flushed(w);
    var w2 := Raw(w1, "<");
    if w.softNewline {
      assert w1.out == w.out + Pending(w) + "\n";
      assert Pending(w1) == Spaces(2 * w.indent);
    } else {
      assert Pending(w1) == [];
    }
    assert w2.out == w.out + Pending(w) + lead + "<";
    StrWhenSettled(w2, t);
  }

  /**
    * Closing a tag: `/>` while its `>` is still pending (nothing was
    * written since it started), otherwise the indentation when at the start
    * of a line and `</name>`; a newline always follows and the indent
    * drops by one.
    */
  lemma CloseTagText(w: Writer, t: string)
    requires Valid(w) && !w.inAttribute && w.indent > 0
    ensures w.inTag ==> CloseTag(w, t).out == w.out + "/>\n"
    ensures !w.inTag && w.startOfLine ==> CloseTag(w, t).out == w.out + Spaces(2 * (w.indent - 1)) + EndTag(t)
    ensures !w.inTag && !w.startOfLine ==> CloseTag(w, t).out == w.out + EndTag(t)
    ensures var r := CloseTag(w, t);
      !r.inTag && !r.inAttribute && r.startOfLine && !r.softNewline && r.indent == w.indent - 1
  {
    if w.inTag {
      CloseSelf(w, t);
    } else {
      CloseEnd(w, t);
    }
  }

  /** The self-closing branch of closing a tag. */
  lemma CloseSelf(w: Writer, t: string)
    requires Valid(w) && !w.inAttribute && w.indent > 0 && w.inTag
    ensures CloseTag(w, t) == w.(out := w.out + "/>\n", inTag := false, startOfLine := true, softNewline := false, indent := w.indent - 1)
  {
    var w1 := w.(indent := w.indent - 1, inTag := false);
    RawWhenSettled(w1, "/>");
    var body := w1.(out := w.out + "/>");
    assert Raw(w1, "/>") == body;
    RawWhenSettled(body, "\n");
  }

  /** The explicit end-tag branch of closing a tag. */
  lemma CloseEnd(w: Writer, t: string)
    requires Valid(w) && !w.inAttribute && w.indent > 0 && !w.inTag
    ensures w.startOfLine ==> CloseTag(w, t).out == w.out + Spaces(2 * (w.indent - 1)) + EndTag(t)
    ensures !w.startOfLine ==> CloseTag(w, t).out == w.out + EndTag(t)
    ensures var r := CloseTag(w, t);
      !r.inTag && !r.inAttribute && r.startOfLine && !r.softNewline && r.indent == w.indent - 1
  {
    var w1 := w.(indent := w.indent - 1);
    var body := Raw(Str(Raw(w1, "</"), t), ">");
    CloseBody(w1, t);
    assert CloseTag(w, t) == Newline(body);
    RawWhenSettled(body, "\n");
    if w.startOfLine {
      EndTagAppend(w.out + Spaces(2 * (w.indent - 1)), t);
    } else {
      EndTagAppend(w.out, t);
    }
  }

  lemma EndTagAppend(x: string, t: string)
    ensures x + "</" + Escape(t) + ">" + "\n" == x + EndTag(t)
  {
  }

  /** The `</name>` branch of closing a tag. */
  lemma CloseBody(w: Writer, t: string)
    requires Valid(w) && !w.inTag
    ensures var b := Raw(Str(Raw(w, "</"), t), ">");
      && (w.startOfLine ==> b.out == w.out + Spaces(2 * w.indent) + "</" + Escape(t) + ">")
      && (!w.startOfLine ==> b.out == w.out + "</" + Escape(t) + ">")
      && !b.inTag && !b.startOfLine && b.inAttribute == w.inAttribute && b.indent == w.indent
  {
    var w2 := Raw(w, "</");
    assert w2.out == w.out + (if w.startOfLine then Spaces(2 * w.indent) else "") + "</";
    StrWhenSettled(w2, t);
    RawWhenSettled(Str(w2, t), ">");
  }

  /**
    * An attribute scope around the text `v` writes ` name="v"` and leaves
    * every other part of the state as it found it, the pending `>`
    * included, so the tag can still self-close.
    */
  lemma AttrText(w: Writer, a: string, v: string)
    requires Valid(w) && w.inTag && !w.inAttribute
    ensures CloseAttr(Str(OpenAttr(w, a), v)) == w.(out := w.out + AttrPiece(Attribute(a, v)))
  {
    var w0 := w.(inTag := false, inAttribute := true);
    RawWhenSettled(w0, " ");
    var w1 := w0.(out := w.out + " ");
    StrWhenSettled(w1, a);
    var w2 := w0.(out := w.out + " " + Escape(a));
    RawWhenSettled(w2, "=\"");
    var w3 := w0.(out := w.out + " " + Escape(a) + "=\"");
    StrWhenSettled(w3, v);
    var w4 := w0.(out := w.out + " " + Escape(a) + "=\"" + Escape(v));
    RawWhenSettled(w4, "\"");
    AttrPieceAppend(w.out, a, v);
  }

  lemma AttrPieceAppend(x: string, a: string, v: string)
    ensures x + " " + Escape(a) + "=\"" + Escape(v) + "\"" == x + AttrPiece(Attribute(a, v))
  {
  }

  /** A tag with nothing written inside it takes the self-closing form. */
  lemma EmptyElement(w: Writer, t: string)
    requires Valid(w) && !w.inAttribute
    ensures CloseTag(OpenTag(w, t), t).out == OpenTag(w, t).out + "/>\n"
  {
    OpenTagText(w, t);
    CloseTagText(OpenTag(w, t), t);
  }

  /** Text content sits between `>` and `</name>`, with no newline around it. */
  lemma TextElement(w: Writer, t: string, c: string)
    requires Valid(w) && !w.inAttribute && c != []
    ensures CloseTag(Str(OpenTag(w, t), c), t).out == OpenTag(w, t).out + ">" + Escape(c) + EndTag(t)
  {
    var o := OpenTag(w, t);
    OpenTagText(w, t);
    StrAfterOpen(o, c);
    var r := o.(out := o.out + ">" + Escape(c), inTag := false);
    CloseTagText(r, t);
    Regroup(o.out, ">", Escape(c), EndTag(t));
  }

  /** An element as a client builds it with nested scopes. */
  datatype Node = Element(name: string, attrs: seq<Attribute>, content: Content)

  datatype Attribute = Attribute(key: string, value: string)

  /** Text-only or element-only content; empty content gives a self-closing tag. */
  datatype Content = NoContent | TextContent(text: string) | Children(kids: seq<Node>)

  /**
    * How a client writes an element with the scopes: a tag scope, one
    * attribute scope per attribute with its value written inside it, the
    * content, then the release of the tag scope.
    */
  function WriteNode(w: Writer, n: Node): (r: Writer)
    ensures r.indent == w.indent
    decreases n, 1
  {
    var started := WriteAttrs(OpenTag(w, n.name), n.attrs);
    var filled := match n.content
      case NoContent => started
      case TextContent(t) => Str(started, t)
      case Children(ks) => WriteNodes(started, ks);
    CloseTag(filled, n.name)
  }

  /** Sibling elements, one after the other. */
  function WriteNodes(w: Writer, ks: seq<Node>): (r: Writer)
    ensures r.indent == w.indent
    decreases ks, 0
  {
    if ks == [] then w else WriteNodes(WriteNode(w, ks[0]), ks[1..])
  }

  function WriteAttrs(w: Writer, attrs: seq<Attribute>): (r: Writer)
    ensures r.indent == w.indent
    decreases attrs
  {
    if attrs == [] then w else WriteAttrs(CloseAttr(Str(OpenAttr(w, attrs[0].key), attrs[0].value)), attrs[1..])
  }

  /**
    * The reference serialisation at nesting depth `d`: every element on a
    * line of its own, indented two spaces per level, text content inline.
    */
  function Render(n: Node, d: nat): string
    decreases n, 2
  {
    Spaces(2 * d) + StartTag(n) + Body(n, d)
  }

  function StartTag(n: Node): string {
    "<" + Escape(n.name) + RenderAttrs(n.attrs)
  }

  /** What follows the start tag: `/>` for empty content, else the content and the end tag. */
  function Body(n: Node, d: nat): string
    decreases n, 1
  {
    match n.content
    case NoContent => "/>\n"
    case TextContent(t) => if t == [] then "/>\n" else ">" + Escape(t) + EndTag(n.name)
    case Children(ks) => if ks == [] then "/>\n" else ">\n" + RenderNodes(ks, d + 1) + Spaces(2 * d) + EndTag(n.name)
  }

  function EndTag(name: string): string {
    "</" + Escape(name) + ">\n"
  }

  function RenderNodes(ks: seq<Node>, d: nat): string
    decreases ks, 0
  {
    if ks == [] then [] else Render(ks[0], d) + RenderNodes(ks[1..], d)
  }

  function AttrPiece(a: Attribute): string {
    " " + Escape(a.key) + "=\"" + Escape(a.value) + "\""
  }

  function RenderAttrs(attrs: seq<Attribute>): string {
    if attrs == [] then [] else AttrPiece(attrs[0]) + RenderAttrs(attrs[1..])
  }

  /** The state after a closing tag (or the declaration) at depth `d`. */
  predicate AtLineStart(w: Writer, d: nat) {
    !w.inTag && !w.inAttribute && w.startOfLine && !w.softNewline && w.indent == d
  }

  /** The state after opening a tag at depth `d`, its `>` still pending. */
  predicate JustOpened(w: Writer, d: nat) {
    w.inTag && !w.inAttribute && !w.startOfLine && w.softNewline && w.indent == d
  }

  /** Opening a tag at the same nesting as before: a newline first when the previous action opened a tag. */
  lemma OpenAfterOpen(w: Writer, t: string)
    requires Valid(w) && w.softNewline
    ensures OpenTag(w, t) == OpenTag(Newline(w), t)
  {
    var n := Newline(w);
    FlushSettles(n);
    assert Raw(Flushed(n), "<") == Raw(n, "<");
  }

  lemma {:induction false} AttrsText(w: Writer, attrs: seq<Attribute>)
    requires Valid(w) && w.inTag && !w.inAttribute
    ensures WriteAttrs(w, attrs) == w.(out := w.out + RenderAttrs(attrs))
    decreases attrs
  {
    if attrs == [] {
      assert w.out + RenderAttrs(attrs) == w.out;
    } else {
      var a, rest := attrs[0], attrs[1..];
      AttrText(w, a.key, a.value);
      var w1 := w.(out := w.out + AttrPiece(a));
      assert WriteAttrs(w, attrs) == WriteAttrs(w1, rest);
      AttrsText(w1, rest);
      Assoc(w.out, AttrPiece(a), RenderAttrs(rest));
    }
  }

  /** The state after the start tag at depth `d`: its `>` pending, one level deeper. */
  function Opened(w: Writer, n: Node, d: nat): Writer {
    w.(out := w.out + Spaces(2 * d) + StartTag(n), inTag := true, startOfLine := false, softNewline := true, indent := d + 1)
  }

  /** Opening a tag at the start of a line: indentation, `<` and the name. */
  lemma OpenAtLineStart(w: Writer, t: string, d: nat)
    requires AtLineStart(w, d)
    ensures OpenTag(w, t)
      == w.(out := w.out + Spaces(2 * d) + "<" + Escape(t), inTag := true, startOfLine := false, softNewline := true, indent := d + 1)
  {
    var f := w.(out := w.out + Spaces(2 * d), startOfLine := false);
    assert Flushed(w) == f;
    RawWhenSettled(f, "<");
    StrWhenSettled(f.(out := f.out + "<"), t);
  }

  /** The start tag with its attributes. */
  lemma StartTagText(w: Writer, n: Node, d: nat)
    requires AtLineStart(w, d)
    ensures WriteAttrs(OpenTag(w, n.name), n.attrs) == Opened(w, n, d)
  {
    var x := w.out + Spaces(2 * d);
    OpenAtLineStart(w, n.name, d);
    var o := w.(out := x + "<" + Escape(n.name), inTag := true, startOfLine := false, softNewline := true, indent := d + 1);
    AttrsText(o, n.attrs);
    StartTagAppend(x, n);
  }

  lemma StartTagAppend(x: string, n: Node)
    ensures x + "<" + Escape(n.name) + RenderAttrs(n.attrs) == x + StartTag(n)
  {
  }

  /** `w.out + Render(n, d)`, regrouped the way the writer produces it. */
  lemma RenderAppend(w: Writer, n: Node, d: nat)
    ensures w.out + Render(n, d) == Opened(w, n, d).out + Body(n, d)
  {
    var sp, st, b := Spaces(2 * d), StartTag(n), Body(n, d);
    Assoc(w.out, sp + st, b);
    Assoc(w.out, sp, st);
  }

  /**
    * Writing an element from the start of a line at depth `d` appends
    * exactly its reference serialisation and returns to the start of a
    * line at the same depth.
    */
  lemma {:induction false} NodeText(w: Writer, n: Node, d: nat)
    requires AtLineStart(w, d) && Valid(w)
    ensures WriteNode(w, n) == w.(out := w.out + Render(n, d))
    decreases n, 2
  {
    RenderAppend(w, n, d);
    if n.content.Children? && n.content.kids != [] {
      ChildrenText(w, n, d);
    } else if n.content.TextContent? && n.content.text != [] {
      TextText(w, n, d);
    } else {
      LeafText(w, n, d);
    }
  }

  /** An element with empty content self-closes. */
  lemma LeafText(w: Writer, n: Node, d: nat)
    requires AtLineStart(w, d) && Valid(w)
    requires n.content.NoContent? || n.content == TextContent([]) || n.content == Children([])
    ensures WriteNode(w, n).out == Opened(w, n, d).out + Body(n, d)
    ensures AtLineStart(WriteNode(w, n), d)
  {
    StartTagText(w, n, d);
    var j := Opened(w, n, d);
    assert WriteNode(w, n) == CloseTag(j, n.name);
    CloseTagText(j, n.name);
  }

  /** Text content: `>`, the escaped text, the end tag. */
  lemma TextText(w: Writer, n: Node, d: nat)
    requires AtLineStart(w, d) && Valid(w)
    requires n.content.TextContent? && n.content.text != []
    ensures WriteNode(w, n).out == Opened(w, n, d).out + Body(n, d)
    ensures AtLineStart(WriteNode(w, n), d)
  {
    var t := n.content.text;
    StartTagText(w, n, d);
    var j := Opened(w, n, d);
    StrAfterOpen(j, t);
    var f := j.(out := j.out + ">" + Escape(t), inTag := false);
    assert WriteNode(w, n) == CloseTag(f, n.name);
    CloseTagText(f, n.name);
    Regroup(j.out, ">", Escape(t), EndTag(n.name));
  }

  /** Element content: the first child moves to a new line, the end tag gets one of its own. */
  lemma {:induction false} ChildrenText(w: Writer, n: Node, d: nat)
    requires AtLineStart(w, d) && Valid(w)
    requires n.content.Children? && n.content.kids != []
    ensures WriteNode(w, n).out == Opened(w, n, d).out + Body(n, d)
    ensures AtLineStart(WriteNode(w, n), d)
    decreases n, 1
  {
    var ks := n.content.kids;
    var j := Opened(w, n, d);
    assert WriteAttrs(OpenTag(w, n.name), n.attrs) == j by { StartTagText(w, n, d); }
    var l := j.(out := j.out + ">\n", inTag := false, startOfLine := true, softNewline := false);
    assert WriteNodes(j, ks) == WriteNodes(l, ks) by {
      assert Newline(j) == l;
      OpenAfterOpen(j, ks[0].name);
    }
    var f := l.(out := l.out + RenderNodes(ks, d + 1));
    assert WriteNodes(l, ks) == f by { NodesText(l, ks, d + 1); }
    assert WriteNode(w, n) == CloseTag(f, n.name);
    CloseTagText(f, n.name);
    ChildrenAppend(j.out, RenderNodes(ks, d + 1), Spaces(2 * d), EndTag(n.name));
  }

  lemma ChildrenAppend(x: string, kids: string, sp: string, end: string)
    ensures x + ">\n" + kids + sp + end == x + (">\n" + kids + sp + end)
  {
  }

  lemma {:induction false} NodesText(w: Writer, ks: seq<Node>, d: nat)
    requires AtLineStart(w, d) && Valid(w)
    ensures WriteNodes(w, ks) == w.(out := w.out + RenderNodes(ks, d))
    decreases ks, 3
  {
    if ks == [] {
      assert w.out + RenderNodes(ks, d) == w.out;
    } else {
      NodeText(w, ks[0], d);
      var w1 := w.(out := w.out + Render(ks[0], d));
      assert WriteNodes(w, ks) == WriteNodes(w1, ks[1..]);
      NodesText(w1, ks[1..], d);
      Assoc(w.out, Render(ks[0], d), RenderNodes(ks[1..], d));
    }
  }

  /**
    * A whole document: the declaration line, then the root element's
    * serialisation; the final flush adds nothing.
    */
  lemma DocumentText(root: Node)
    ensures Flushed(WriteNode(Start(), root)).out == Header + "\n" + Render(root, 0)
  {
    StartState();
    NodeText(Start(), root, 0);
    assert Spaces(0) == [];
  }

  /** Names and texts of the sample documents contain no special character. */
  predicate Plain(s: string) {
    forall i :: 0 <= i < |s| ==> !Special(s[i])
  }

  lemma LeafRender(name: string, attrs: seq<Attribute>, d: nat)
    requires Plain(name)
    ensures Render(Element(name, attrs, NoContent), d) == Spaces(2 * d) + "<" + name + RenderAttrs(attrs) + "/>\n"
  {
    EscapePlain(name);
    var n := Element(name, attrs, NoContent);
    assert StartTag(n) == "<" + name + RenderAttrs(attrs);
    FlatLeaf(Spaces(2 * d), "<", name, RenderAttrs(attrs), "/>\n");
  }

  lemma FlatLeaf(sp: string, lt: string, name: string, ra: string, close: string)
    ensures sp + (lt + name + ra) + close == sp + lt + name + ra + close
  {
  }

  lemma TextRender(name: string, attrs: seq<Attribute>, t: string, d: nat)
    requires Plain(name) && Plain(t) && t != []
    ensures Render(Element(name, attrs, TextContent(t)), d)
      == Spaces(2 * d) + "<" + name + RenderAttrs(attrs) + ">" + t + "</" + name + ">\n"
  {
    EscapePlain(name);
    EscapePlain(t);
    var n := Element(name, attrs, TextContent(t));
    var sp, ra := Spaces(2 * d), RenderAttrs(attrs);
    assert StartTag(n) == "<" + name + ra;
    assert EndTag(name) == "</" + name + ">\n";
    assert Body(n, d) == ">" + t + EndTag(name);
    FlatText(sp, "<", name, ra, ">", t, "</", ">\n");
  }

  lemma FlatText(sp: string, lt: string, name: string, ra: string, gt: string, t: string, slash: string, nl: string)
    ensures sp + (lt + name + ra) + (gt + t + (slash + name + nl))
      == sp + lt + name + ra + gt + t + slash + name + nl
  {
  }

  /** An element with element content: its start-tag line, its children, its end-tag line. */
  lemma ParentRender(name: string, attrs: seq<Attribute>, ks: seq<Node>, d: nat)
    requires Plain(name) && ks != []
    ensures Render(Element(name, attrs, Children(ks)), d)
      == (Spaces(2 * d) + "<" + name + RenderAttrs(attrs) + ">\n") + RenderNodes(ks, d + 1) + (Spaces(2 * d) + "</" + name + ">\n")
  {
    EscapePlain(name);
    var n := Element(name, attrs, Children(ks));
    var sp, ra, kids := Spaces(2 * d), RenderAttrs(attrs), RenderNodes(ks, d + 1);
    assert StartTag(n) == "<" + name + ra;
    assert EndTag(name) == "</" + name + ">\n";
    assert Body(n, d) == ">\n" + kids + sp + EndTag(name);
    FlatParent(sp, "<", name, ra, ">\n", kids, "</", ">\n");
  }

  lemma FlatParent(sp: string, lt: string, name: string, ra: string, gt: string, kids: string, slash: string, nl: string)
    ensures sp + (lt + name + ra) + (gt + kids + sp + (slash + name + nl))
      == (sp + lt + name + ra + gt) + kids + (sp + slash + name + nl)
  {
  }

  lemma PlainAttr(k: string, v: string)
    requires Plain(k) && Plain(v)
    ensures AttrPiece(Attribute(k, v)) == " " + k + "=\"" + v + "\""
  {
    EscapePlain(k);
    EscapePlain(v);
  }

  lemma Siblings2(a: Node, b: Node, d: nat)
    ensures RenderNodes([a, b], d) == Render(a, d) + Render(b, d)
  {
    assert [a, b][1..] == [b] && [b][1..] == [];
    var x := Render(b, d);
    assert RenderNodes([b], d) == x + [];
    assert x + [] == x;
  }

  lemma Siblings3(a: Node, b: Node, c: Node, d: nat)
    ensures RenderNodes([a, b, c], d) == Render(a, d) + Render(b, d) + Render(c, d)
  {
    assert [a, b, c][1..] == [b, c];
    Siblings2(b, c, d);
    Assoc(Render(a, d), Render(b, d), Render(c, d));
  }

  lemma OneAttr(a: Attribute)
    ensures RenderAttrs([a]) == AttrPiece(a)
  {
    assert [a][1..] == [];
  }

  lemma NoAttrs()
    ensures RenderAttrs([]) == []
  {
  }

  /** The shape of `test_root_only`: a lone empty root self-closes. */
  lemma RootOnlyText(r: string)
    requires Plain(r)
    ensures Render(Element(r, [], NoContent), 0) == "<" + r + "/>\n"
  {
    LeafRender(r, [], 0);
    NoAttrs();
    assert Spaces(0) == [];
  }

  /** The shape of `test_root_attr`: an attribute with an empty value, and the tag still self-closes. */
  lemma RootAttrText(r: string, a: string)
    requires Plain(r) && Plain(a)
    ensures Render(Element(r, [Attribute(a, "")], NoContent), 0) == "<" + r + " " + a + "=\"\"/>\n"
  {
    LeafRender(r, [Attribute(a, "")], 0);
    OneAttr(Attribute(a, ""));
    PlainAttr(a, "");
    assert Spaces(0) == [];
  }

  /** The shape of `test_root_content`: text content, with no newline around it. */
  lemma RootContentText(r: string, c: string)
    requires Plain(r) && Plain(c) && c != []
    ensures Render(Element(r, [], TextContent(c)), 0) == "<" + r + ">" + c + "</" + r + ">\n"
  {
    TextRender(r, [], c, 0);
    NoAttrs();
    assert Spaces(0) == [];
  }

  /** The shape of `test_children`: three empty children, each on its own line, indented. */
  lemma RootChildrenText(r: string, c1: string, c2: string, c3: string)
    requires Plain(r) && Plain(c1) && Plain(c2) && Plain(c3)
    ensures Render(Element(r, [], Children([Element(c1, [], NoContent), Element(c2, [], NoContent), Element(c3, [], NoContent)])), 0)
      == "<" + r + ">\n" + ("  <" + c1 + "/>\n" + "  <" + c2 + "/>\n" + "  <" + c3 + "/>\n") + "</" + r + ">\n"
  {
    var k1, k2, k3 := Element(c1, [], NoContent), Element(c2, [], NoContent), Element(c3, [], NoContent);
    ParentRender(r, [], [k1, k2, k3], 0);
    ThreeLeaves(c1, c2, c3);
    TopLines(r);
    Frame(Spaces(0) + "<" + r + RenderAttrs([]) + ">\n", "<" + r + ">\n",
          RenderNodes([k1, k2, k3], 1), "  <" + c1 + "/>\n" + "  <" + c2 + "/>\n" + "  <" + c3 + "/>\n",
          Spaces(0) + "</" + r + ">\n", "</" + r + ">\n");
  }

  lemma ThreeLeaves(c1: string, c2: string, c3: string)
    requires Plain(c1) && Plain(c2) && Plain(c3)
    ensures RenderNodes([Element(c1, [], NoContent), Element(c2, [], NoContent), Element(c3, [], NoContent)], 1)
      == "  <" + c1 + "/>\n" + "  <" + c2 + "/>\n" + "  <" + c3 + "/>\n"
  {
    Indented(c1, 1);
    Indented(c2, 1);
    Indented(c3, 1);
    SiblingLines(Element(c1, [], NoContent), Element(c2, [], NoContent), Element(c3, [], NoContent), 1,
                 "  <" + c1 + "/>\n", "  <" + c2 + "/>\n", "  <" + c3 + "/>\n");
  }

  lemma SiblingLines(a: Node, b: Node, c: Node, d: nat, x: string, y: string, z: string)
    requires Render(a, d) == x && Render(b, d) == y && Render(c, d) == z
    ensures RenderNodes([a, b, c], d) == x + y + z
  {
    Siblings3(a, b, c, d);
  }

  /** Replacing the three parts of a concatenation by equal strings. */
  lemma Frame(p: string, p': string, k: string, k': string, q: string, q': string)
    requires p == p' && k == k' && q == q'
    ensures p + k + q == p' + k' + q'
  {
  }

  /** An empty element at depth 1. */
  lemma Indented(c: string, d: nat)
    requires Plain(c) && d == 1
    ensures Render(Element(c, [], NoContent), d) == "  <" + c + "/>\n"
  {
    LeafRender(c, [], d);
    NoAttrs();
    assert Spaces(2) == "  ";
  }

  /** At depth 0 the start-tag and end-tag lines of an attribute-less element carry no indentation. */
  lemma TopLines(r: string)
    ensures Spaces(0) + "<" + r + RenderAttrs([]) + ">\n" == "<" + r + ">\n"
    ensures Spaces(0) + "</" + r + ">\n" == "</" + r + ">\n"
  {
    NoAttrs();
    assert Spaces(0) == [];
  }

  /**
    * The shape of `test_fancy`: three attributes on the root in the order
    * they were opened (the middle one empty), two levels of nesting and
    * text at the bottom.
    */
  lemma FancyText(r: string, a1: string, v1: string, a2: string, a3: string, v3: string,
                  tag: string, child: string, t1: string, t2: string)
    requires Plain(r) && Plain(a1) && Plain(v1) && Plain(a2) && Plain(a3) && Plain(v3)
    requires Plain(tag) && Plain(child) && Plain(t1) && Plain(t2) && t1 != [] && t2 != []
    ensures Render(Element(r, [Attribute(a1, v1), Attribute(a2, ""), Attribute(a3, v3)],
                     Children([Element(tag, [], Children([Element(child, [], TextContent(t1)), Element(child, [], TextContent(t2))]))])), 0)
      == "<" + r + ((" " + a1 + "=\"" + v1 + "\"") + (" " + a2 + "=\"\"") + (" " + a3 + "=\"" + v3 + "\"")) + ">\n"
       + ("  <" + tag + ">\n"
          + ("    <" + child + ">" + t1 + "</" + child + ">\n" + "    <" + child + ">" + t2 + "</" + child + ">\n")
          + "  </" + tag + ">\n")
       + "</" + r + ">\n"
  {
    var attrs := [Attribute(a1, v1), Attribute(a2, ""), Attribute(a3, v3)];
    var k := Element(tag, [], Children([Element(child, [], TextContent(t1)), Element(child, [], TextContent(t2))]));
    var ra := (" " + a1 + "=\"" + v1 + "\"") + (" " + a2 + "=\"\"") + (" " + a3 + "=\"" + v3 + "\"");
    var inner := "  <" + tag + ">\n"
          + ("    <" + child + ">" + t1 + "</" + child + ">\n" + "    <" + child + ">" + t2 + "</" + child + ">\n")
          + "  </" + tag + ">\n";
    ParentRender(r, attrs, [k], 0);
    FancyAttrs(a1, v1, a2, a3, v3);
    FancyTag(tag, child, t1, t2);
    OnlyChild(k, 1, inner);
    RootLines(r, RenderAttrs(attrs), ra);
    Frame(Spaces(0) + "<" + r + RenderAttrs(attrs) + ">\n", "<" + r + ra + ">\n",
          RenderNodes([k], 1), inner,
          Spaces(0) + "</" + r + ">\n", "</" + r + ">\n");
  }

  lemma RootLines(r: string, ra: string, ra': string)
    requires ra == ra'
    ensures Spaces(0) + "<" + r + ra + ">\n" == "<" + r + ra' + ">\n"
    ensures Spaces(0) + "</" + r + ">\n" == "</" + r + ">\n"
  {
    assert Spaces(0) == [];
  }

  lemma OnlyChild(k: Node, d: nat, x: string)
    requires Render(k, d) == x
    ensures RenderNodes([k], d) == x
  {
    assert [k][1..] == [];
    assert RenderNodes([k], d) == x + [];
    assert x + [] == x;
  }

  lemma FancyAttrs(a1: string, v1: string, a2: string, a3: string, v3: string)
    requires Plain(a1) && Plain(v1) && Plain(a2) && Plain(a3) && Plain(v3)
    ensures RenderAttrs([Attribute(a1, v1), Attribute(a2, ""), Attribute(a3, v3)])
      == (" " + a1 + "=\"" + v1 + "\"") + (" " + a2 + "=\"\"") + (" " + a3 + "=\"" + v3 + "\"")
  {
    PlainAttr(a1, v1);
    PlainAttr(a2, "");
    PlainAttr(a3, v3);
    AttrLines(Attribute(a1, v1), Attribute(a2, ""), Attribute(a3, v3),
              " " + a1 + "=\"" + v1 + "\"", " " + a2 + "=\"\"", " " + a3 + "=\"" + v3 + "\"");
  }

  lemma AttrLines(x: Attribute, y: Attribute, z: Attribute, p: string, q: string, u: string)
    requires AttrPiece(x) == p && AttrPiece(y) == q && AttrPiece(z) == u
    ensures RenderAttrs([x, y, z]) == p + q + u
  {
    assert [x, y, z][1..] == [y, z] && [y, z][1..] == [z];
    OneAttr(z);
    assert RenderAttrs([x, y, z]) == p + (q + u);
    Assoc(p, q, u);
  }

  lemma FancyTag(tag: string, child: string, t1: string, t2: string)
    requires Plain(tag) && Plain(child) && Plain(t1) && Plain(t2) && t1 != [] && t2 != []
    ensures Render(Element(tag, [], Children([Element(child, [], TextContent(t1)), Element(child, [], TextContent(t2))])), 1)
      == "  <" + tag + ">\n"
       + ("    <" + child + ">" + t1 + "</" + child + ">\n" + "    <" + child + ">" + t2 + "</" + child + ">\n")
       + "  </" + tag + ">\n"
  {
    var k1, k2 := Element(child, [], TextContent(t1)), Element(child, [], TextContent(t2));
    ParentRender(tag, [], [k1, k2], 1);
    TwoTexts(child, t1, t2);
    NestedLines(tag);
    Frame(Spaces(2) + "<" + tag + RenderAttrs([]) + ">\n", "  <" + tag + ">\n",
          RenderNodes([k1, k2], 2), "    <" + child + ">" + t1 + "</" + child + ">\n" + "    <" + child + ">" + t2 + "</" + child + ">\n",
          Spaces(2) + "</" + tag + ">\n", "  </" + tag + ">\n");
  }

  lemma NestedLines(t: string)
    ensures Spaces(2) + "<" + t + RenderAttrs([]) + ">\n" == "  <" + t + ">\n"
    ensures Spaces(2) + "</" + t + ">\n" == "  </" + t + ">\n"
  {
    NoAttrs();
    assert Spaces(2) == "  ";
  }

  lemma TwoTexts(child: string, t1: string, t2: string)
    requires Plain(child) && Plain(t1) && Plain(t2) && t1 != [] && t2 != []
    ensures RenderNodes([Element(child, [], TextContent(t1)), Element(child, [], TextContent(t2))], 2)
      == "    <" + child + ">" + t1 + "</" + child + ">\n" + "    <" + child + ">" + t2 + "</" + child + ">\n"
  {
    TextLine(child, t1, 2);
    TextLine(child, t2, 2);
    SiblingPair(Element(child, [], TextContent(t1)), Element(child, [], TextContent(t2)), 2,
                "    <" + child + ">" + t1 + "</" + child + ">\n", "    <" + child + ">" + t2 + "</" + child + ">\n");
  }

  lemma SiblingPair(a: Node, b: Node, d: nat, x: string, y: string)
    requires Render(a, d) == x && Render(b, d) == y
    ensures RenderNodes([a, b], d) == x + y
  {
    Siblings2(a, b, d);
  }

  /** An element with text content at depth 2. */
  lemma TextLine(c: string, t: string, d: nat)
    requires Plain(c) && Plain(t) && t != [] && d == 2
    ensures Render(Element(c, [], TextContent(t)), d) == "    <" + c + ">" + t + "</" + c + ">\n"
  {
    TextRender(c, [], t, d);
    NoAttrs();
    assert Spaces(4) == "    ";
  }

  class XmlOutput {
    /** Everything written to the output file so far. */
    var out: string
    var inTag: bool
    var inAttribute: bool
    var startOfLine: bool
    var softNewline: bool
    var currentIndent: nat

    /** The fields as one value. */
    function State(): Writer
      reads this
    {
      Writer(out, inTag, inAttribute, startOfLine, softNewline, currentIndent)
    }

    constructor ()
      ensures State() == Start()
    {
      out := [];
      inTag := false;
      inAttribute := false;
      startOfLine := true;
      softNewline := false;
      currentIndent := 0;
      new;
      EmitRaw(Header);
      EmitNewline();
    }

    /** The destructor: its last flush. */
    method Close()
      requires Valid(State()) && !inTag && !inAttribute && currentIndent == 0
      modifies this
      ensures State() == Flushed(old(State()))
    {
      Flush();
    }

    /** The output file itself: appends `s`. */
    method Write(s: string)
      modifies this`out
      ensures out == old(out) + s
    {
      out := out + s;
    }

    method Flush()
      requires Valid(State())
      modifies this
      ensures State() == Flushed(old(State()))
    {
      if inTag {
        inTag := false;
        // emit_raw(">"): its own flush finds nothing left to do
        Write(">");
      }
      if startOfLine {
        startOfLine := false;
        EmitSpaces(2 * currentIndent);
      }
    }

    /** Writes `n` spaces in chunks of at most 32, without flushing. */
    method EmitSpaces(n: nat)
      modifies this`out
      ensures out == old(out) + Spaces(n)
    {
      var left := n;
      while left > 0
        invariant 0 <= left <= n
        invariant out == old(out) + Spaces(n - left)
      {
        var l := if left < 32 then left else 32;
        Write(Spaces(l));
        SpacesAdd(n - left, l);
        left := left - l;
      }
    }

    method EmitRaw(s: string)
      requires Valid(State())
      modifies this
      ensures State() == Raw(old(State()), s)
    {
      Flush();
      Write(s);
    }

    method EmitNewline()
      requires Valid(State())
      modifies this
      ensures State() == Newline(old(State()))
    {
      EmitRaw("\n");
      startOfLine := true;
      softNewline := false;
    }

    /**
      * `emit_string`: the text must be printable ASCII. The escaped text is
      * built by `EscapeText` and written at once; the empty string writes
      * nothing, not even the pending flush.
      */
    method EmitString(s: string)
      requires Valid(State()) && AllPrintable(s)
      modifies this
      ensures State() == Str(old(State()), s)
    {
      if s != [] {
        var t := EscapeText(s);
        EmitRaw(t);
      }
    }

    /** An unsigned integer, written through `with_output_file` after a flush. */
    method EmitNat(n: nat)
      requires Valid(State())
      modifies this
      ensures State() == Number(old(State()), n)
    {
      Flush();
      Write(Decimal(n));
    }
  }

  lemma Assoc(a: string, b: string, c: string)
    ensures a + (b + c) == a + b + c
  {
  }

  lemma Regroup(x: string, a: string, b: string, c: string)
    ensures x + a + b + c == x + (a + b + c)
  {
  }

  lemma EscapeRun(s: string, i: nat, len: nat)
    requires i + len <= |s|
    requires forall k :: i <= k < i + len ==> !Special(s[k])
    ensures Escape(s[..i + len]) == Escape(s[..i]) + s[i..i + len]
  {
    assert s[..i + len] == s[..i] + s[i..i + len];
    EscapeAppend(s[..i], s[i..i + len]);
    EscapePlain(s[i..i + len]);
  }

  lemma EscapeNext(s: string, i: nat)
    requires i < |s|
    ensures Escape(s[..i + 1]) == Escape(s[..i]) + Entity(s[i])
  {
    assert s[..i + 1][..i] == s[..i];
  }

  /** `strcspn(s + i, "<>&\"")`: the length of the run of ordinary characters at `i`. */
  function PlainRun(s: string, i: nat): (n: nat)
    requires i <= |s|
    ensures i + n <= |s|
    ensures forall k :: i <= k < i + n ==> !Special(s[k])
    ensures i + n < |s| ==> Special(s[i + n])
    decreases |s| - i
  {
    if i == |s| || Special(s[i]) then 0 else 1 + PlainRun(s, i + 1)
  }

  /**
    * The loop of `emit_string`: each run of ordinary characters (the
    * `strcspn` span) is copied, then each special character that follows
    * is replaced by its entity, until the end of the string.
    */
  method EscapeText(s: string) returns (t: string)
    ensures t == Escape(s)
  {
    t := [];
    var i := 0;
    while i < |s|
      invariant 0 <= i <= |s|
      invariant t == Escape(s[..i])
    {
      var len := PlainRun(s, i);
      if len > 0 {
        EscapeRun(s, i, len);
        t := t + s[i..i + len];
        i := i + len;
      }
      while i < |s| && Special(s[i])
        invariant 0 <= i <= |s|
        invariant t == Escape(s[..i])
      {
        EscapeNext(s, i);
        t := t + Entity(s[i]);
        i := i + 1;
      }
    }
    assert s[..i] == s;
  }

  /** A scoped element: construction opens it, `Close` (the destructor) closes it. */
  class XmlTag {
    var out: XmlOutput?
    const tag: string

    constructor (o: XmlOutput, t: string)
      requires Valid(o.State()) && !o.inAttribute && AllPrintable(t)
      modifies o
      ensures out == o && tag == t
      ensures o.State() == OpenTag(old(o.State()), t)
    {
      out := o;
      tag := t;
      new;
      if o.softNewline {
        o.EmitNewline();
      } else {
        o.Flush();
      }
      o.EmitRaw("<");
      o.EmitString(t);
      o.inTag := true;
      o.softNewline := true;
      o.currentIndent := o.currentIndent + 1;
    }

    /** The move constructor: the new scope takes over, the old one is left inert. */
    constructor Moved(from: XmlTag)
      modifies from
      ensures out == old(from.out) && tag == from.tag && from.out == null
    {
      out := from.out;
      tag := from.tag;
      new;
      from.out := null;
    }

    /**
      * The destructor: `/>` if nothing was written since the tag started,
      * `</name>` otherwise, then a newline; a moved-from scope does nothing.
      */
    method Close()
      requires out != null ==> Valid(out.State()) && !out.inAttribute && out.currentIndent > 0 && AllPrintable(tag)
      modifies out
      ensures out != null ==> out.State() == CloseTag(old(out.State()), tag)
    {
      if out == null {
        return;
      }
      var o := out;
      o.currentIndent := o.currentIndent - 1;
      if o.inTag {
        o.inTag := false;
        o.EmitRaw("/>");
      } else {
        o.EmitRaw("</");
        o.EmitString(tag);
        o.EmitRaw(">");
      }
      o.EmitNewline();
    }
  }

  /** A scoped attribute of the innermost open tag. */
  class XmlAttr {
    var out: XmlOutput?

    constructor (o: XmlOutput, a: string)
      requires Valid(o.State()) && o.inTag && !o.inAttribute && AllPrintable(a)
      modifies o
      ensures out == o
      ensures o.State() == OpenAttr(old(o.State()), a)
    {
      out := o;
      new;
      o.inTag := false;
      o.inAttribute := true;
      o.EmitRaw(" ");
      o.EmitString(a);
      o.EmitRaw("=\"");
    }

    constructor Moved(from: XmlAttr)
      modifies from
      ensures out == old(from.out) && from.out == null
    {
      out := from.out;
      new;
      from.out := null;
    }

    /** Writes the closing quote and returns to the in-tag state, so the tag can still self-close. */
    method Close()
      requires out != null ==> Valid(out.State()) && !out.inTag && out.inAttribute
      modifies out
      ensures out != null ==> out.State() == CloseAttr(old(out.State()))
    {
      if out == null {
        return;
      }
      out.EmitRaw("\"");
      out.inAttribute := false;
      out.inTag := true;
    }
  }
}
