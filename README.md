# vomitorium core, modelled in Dafny

vomitorium is a GCC plugin that dumps the compiler's tree graph as XML.
This project models the part of it that does not call into GCC:

- **the interner** (`intern()`): a map from node reference to id, paired
  with an append-only list. Null is pre-seeded at id 0.
- **the streaming XML writer** (`XmlOutput`, `XmlTag`, `XmlAttr`): five
  state fields, a lazy `>`, self-closing tags, indentation and escaping.
- **the dumper's generic machinery**:
  - a shadow copy of every node, which each field take zeroes;
  - the completeness check and the `remaining` hex dump;
  - `xemit_hex` with its in-place line buffer;
  - the `@id`, `a[i]`, `lhs.field` and location renderers;
  - the write-once operand-name table;
  - the `trees` loop of `dump_all`, which drains the interner's list while
    dumping appends to it.
- **plugin start-up**: the option setters, the argument loop and frontend
  detection.
- **the enum-name tables** and their `check_array` scan.
- **the versioned visitor struct** of the C interface and its bounded
  field accessor.

Each module is one file:

| module | file | models |
|---|---|---|
| `Wrappers` | `wrappers.dfy` | the shared optional value |
| `Bytes` | `bytes.dfy` | bytes, `is_all_zero`, little-endian fields, bitwise masks |
| `Text` | `text.dfy` | `%ju` decimal text |
| `Xml` | `xml.dfy` | writer state as a value (`Writer`), the `XmlOutput`, `XmlTag` and `XmlAttr` classes, escaping, and a reference serialisation of element trees |
| `HexDump` | `hexdump.dfy` | `xemit_hex` |
| `Intern` | `intern.dfy` | `intern()` |
| `Shadow` | `shadow.dfy` | the take macros on a shadow array |
| `Emit` | `emit.dfy` | the `XmlEmitter` specialisations and the `xml0`/`xml1`/`Xml` helpers |
| `Dump` | `dump.dfy` | `dump_tree`, `dump_remaining`, `CALC_OPERAND_NAME`, the `trees` loop |
| `Names` | `names.dfy` | `NAME`, `check_array`, `tls_model_names` |
| `Init` | `options.dfy` | the option setters, the argument loop, `vomitorium_calc_frontend` |
| `Visitor` | `visitor.dfy` | `VOMITORIUM_GET_FIELD`, `vomitorium_visitor_init` |

GCC's catalogue of node fields (hundreds of accessor macros) is replaced
by a `Schema`. For each tree code, the schema holds the list of rules the
dumper applies:

- `Value`: a `DO_*`/`CDO_*` take of a field, shown as a number or as a node
  reference;
- `Bit`: `DO_BIT`, a bit-field selected by a mask in its containing word;
- `Flag`: `DO_FLAG` with its mask.

A field is an offset and a size within the node's bytes, stored least
significant byte first. A bit-field is a word field plus the mask of its
bits. `BIT` reads `(x & m) >> shift`, and the take zeroes only those bits
in the shadow. The node graph is a map from references (addresses,
0 being null) to byte sequences.

State that the source updates in place is modelled as classes:

- `XmlOutput` holds the writer fields and the text written so far.
- `Interner` holds the list and the map.
- `Dumper` holds the writer, the interner and `incomplete_dumps`.
- The shadow and the hex line buffer are `array`s.
- `Options`, `FrontendState` and `VisitorStruct` hold the option record,
  the detected frontend and the visitor struct.

Each method is proved against a pure function of the old state, and the
properties are proved as lemmas about those functions.

Two details of the output format:

- A dumped node's own `id` attribute is written with `xemit(orig_tree)`
  (`src/dump-v1.cpp:1212`), so it reads `@<id>`, the same form as a
  reference inside a field.
- The null entry of the list is written by `xml0("tree", "id", NULL)`
  (`src/dump-v1.cpp:1209`), so it is `<tree id="@0"/>` (`Dump.NullTree`).

## Model

| member | source | states |
|---|---|---|
| Intern.InitialValid | src/intern.cpp:6-7 | The globals start linked: null is entry 0 of the list and maps to id 0. |
| Intern.InsertValid | src/intern.cpp:11-13 | Every `intern` call keeps list and map describing one bijection between references and `0..n-1`, with null first. |
| Intern.InsertFound | src/intern.cpp:11-14 | The returned id indexes the reference in the list. |
| Intern.NullIsZero | src/intern.cpp:6-7 | `intern(NULL)` returns 0 and changes neither list nor map. |
| Intern.Idempotent | src/intern.cpp:11-14 | A second `intern(t)` returns the same id and grows neither the list nor the map. |
| Intern.FreshId | src/intern.cpp:11-13 | A reference is in the map iff it is in the list. A fresh one gets the number of references interned so far, null included, and the list grows by one. A known one gets its place in the list. |
| Intern.AppendOnly | src/intern.cpp:12-13 | Existing list entries and existing ids never change. |
| Intern.IdsExact | src/intern.cpp:11-13 | The ids in use are exactly `0..n-1`, each used by one reference. |
| Intern.LinkedDistinct | src/intern.cpp:11-13 | No reference occurs twice in the list. |
| Intern.FirstSeenOrder | src/intern.cpp:9-15 | After interning a sequence from the start, the list is null followed by the distinct references of the sequence, in order of first occurrence, and nothing else. |
| Intern.InternEachGrows | src/intern.cpp:11-13 | Interning a sequence keeps the invariant and the old list as a prefix. Afterwards exactly the references interned before or occurring in the sequence are mapped. |
| Intern.Interner.constructor | src/intern.cpp:6-7 | A new interner holds just null at id 0, and its list and map are linked. |
| Intern.Interner.Intern | src/intern.cpp:9-15 | The new list, map and returned id are those of `Insert` on the old contents. Linked list and map stay linked, and the id indexes `t` in the list. |
| Text.DecimalRoundTrip | src/dump-v1.cpp:119-131 | `%ju` writes a non-empty digit string with no leading zero, and it reads back as the value. |
| Text.DecimalInjective | src/dump-v1.cpp:707-715 | Distinct ids have distinct texts, so a rendered id identifies its node. |
| Bytes.IsAllZero | src/dump-v1.cpp:788-795 | The scan returns true iff every byte in `[0, size)` is zero. |
| Bytes.LittleEndianZero | src/dump-v1.cpp:1082-1109 | A field is nonzero as an integer (the `CDO_*` test) iff one of its bytes is nonzero. |
| Bytes.AndNotAtMost | src/dump-v1.cpp:1137 | `x & ~m` is never larger than `x`, so a cleared byte is still a byte. |
| Bytes.AndNotClears | src/dump-v1.cpp:1137 | After `x &= ~m` no bit of `m` is left. |
| Bytes.AndNotNoop | src/dump-v1.cpp:1134-1137 | When no bit of the mask is set, clearing it changes nothing. |
| Bytes.AndNotKeeps | src/dump-v1.cpp:1137 | Bits outside the mask keep their values. |
| Bytes.OneBit | src/dump-v1.cpp:1111-1116 | A one-bit bit-field at bit `k` reads as bit `k` of its word, so `BIT`'s value is always 0 or 1. |
| Shadow.EncodeRoundTrip | src/dump-v1.cpp:1137 | A value that fits its field, stored little-endian, reads back as itself. |
| Shadow.EncodeZero | src/dump-v1.cpp:1017-1020 | Storing zero writes zero bytes, as the `memset` of the zero value does. |
| Shadow.PutBytes | src/dump-v1.cpp:1137 | A store writes the encoded value into the field's bytes and leaves every other byte as it was. |
| Shadow.PutGet | src/dump-v1.cpp:1137 | A stored value that fits reads back, and a disjoint field reads as before. |
| Shadow.ClearedBytes | src/dump-v1.cpp:1023-1030 | A take leaves its field zero in the shadow and touches no other byte. |
| Shadow.ClearedTwice | src/dump-v1.cpp:1015-1046 | Taking the same field twice leaves the same shadow as taking it once. |
| Shadow.ClearAllBytes | src/dump-v1.cpp:1015-1046 | After a series of takes, a byte is zero iff some taken field covers it; otherwise it keeps its value. |
| Shadow.Completeness | src/dump-v1.cpp:2961 | After the takes the shadow is all zero iff every nonzero byte was covered by some taken field. |
| Shadow.ClearedReadsZero | src/dump-v1.cpp:1015-1046 | A taken field reads as 0 afterwards. |
| Shadow.Take | src/dump-v1.cpp:1023-1046 | `TAKE1`/`TAKE_I`/`TAKE2` return the field's value in the original node and leave the shadow with that field zeroed and nothing else changed. |
| Shadow.TakeShadow | src/dump-v1.cpp:1015-1022 | `TAKE0` returns the field's value in the shadow itself, then zeroes it there. |
| Shadow.Store | src/dump-v1.cpp:1137 | An assignment to a field of the shadow changes that field only. |
| Shadow.TakeFlag | src/dump-v1.cpp:1131-1140 | `DO_FLAG` reports iff some bit of the mask is set in the field, and only then clears those bits. Otherwise the shadow is unchanged. |
| Shadow.FlagClears | src/dump-v1.cpp:1131-1140 | After `DO_FLAG` the field holds no bit of the mask, and every bit outside the mask is kept. |
| Shadow.TakeBits | src/dump-v1.cpp:1023-1030 | `TAKE1` of a bit-field returns its value in the original node and zeroes only its bits in the shadow's word. |
| Shadow.BitsCleared | src/dump-v1.cpp:1023-1030 | After a bit-field is zeroed, no bit of its mask is left, the other bits of the word are kept, and no byte outside the word changes. |
| Xml.EscapeAppend | src/xml.cpp:95-129 | Escaping works piece by piece and keeps the order: the escape of `a + b` is the escape of `a` followed by the escape of `b`. |
| Xml.EscapeChar | src/xml.cpp:104-127 | A single character is written as its entity: `&lt;`, `&gt;`, `&amp;`, `&quot;`, or itself. |
| Xml.EscapePlain | src/xml.cpp:97-102 | A run with no special character is copied verbatim. |
| Xml.EscapeRoundTrip | src/xml.cpp:95-129 | Escaping loses nothing: the escaped text reads back as the original, in order. |
| Xml.EscapeSafe | src/xml.hpp:6 | Escaped printable text is printable and contains no raw `<`, `>` or `"`. Every `&` in it starts one of the four entities. |
| Xml.StartState | src/xml.cpp:10-25 | Construction writes the 38-character declaration and a newline, then stands at indent 0 with no tag or attribute open. |
| Xml.FlushSettles | src/xml.cpp:39-52 | `flush` writes the pending `>` or the indentation of `2*indent` spaces at the start of a line, never both. Afterwards nothing is pending and a second flush writes nothing. |
| Xml.OperationsKeepValid | src/xml.hpp:27-28 | Given the demands of their assertions, all operations keep the invariant: never both in a tag and in an attribute, and never a pending `>` at the start of a line. |
| Xml.WriteKeepsScopes | src/xml.cpp:67-85 | Writing text, a newline or a number leaves the open elements and the open attribute as they were. |
| Xml.TagScopes | src/xml.cpp:133-201 | Opening a tag adds one to the indent and sets `in_tag`; closing subtracts one. Only the attribute scope swaps `in_tag` and `in_attribute`. |
| Xml.RawWhenSettled | src/xml.cpp:67-78 | Once flushed, raw text is appended as it is and nothing else changes. |
| Xml.RawConcat | src/xml.cpp:67-78 | Two raw writes in a row are one raw write of both. |
| Xml.StrWhenSettled | src/xml.cpp:87-130 | Once flushed, `emit_string` appends exactly the escaped text. |
| Xml.StrAfterOpen | src/xml.cpp:39-46 | Non-empty text right after a start tag first completes it with `>`. |
| Xml.RawInAttribute | src/xml.cpp:181-186 | Inside an attribute value nothing is pending, so every write lands as it is. |
| Xml.OpenTagText | src/xml.cpp:133-152 | Opening a tag writes the pending flush, then a newline and fresh indentation when the previous action opened a tag, then `<` and the name. The `>` stays pending. |
| Xml.CloseTagText | src/xml.cpp:154-174 | Closing a tag writes `/>` when nothing was written since it opened, otherwise `</name>` (indented at the start of a line). A newline always follows and the indent drops by one. |
| Xml.CloseSelf | src/xml.cpp:162-166 | The self-closing branch: `/>` and a newline, at the start of the next line. |
| Xml.CloseEnd | src/xml.cpp:167-173 | The end-tag branch: `</name>` and a newline. |
| Xml.AttrText | src/xml.cpp:176-201 | An attribute scope around the text `v` writes ` name="v"` and restores every other part of the state, the pending `>` included, so the tag can still self-close. |
| Xml.EmptyElement | src/xml.hpp:8 | A tag with nothing written inside it takes the self-closing form. |
| Xml.TextElement | src/xml.hpp:9-10 | Text content sits between `>` and `</name>`, with no newline around it. |
| Xml.WriteNode | src/xml.hpp:7 | Writing an element through nested tag and attribute scopes, released in LIFO order, returns the writer to the indent it started at. |
| Xml.OpenAfterOpen | src/xml.cpp:140-143 | A tag opened right after another tag open is preceded by a newline. |
| Xml.AttrsText | src/xml.cpp:176-201 | A run of attribute scopes appends their ` key="value"` pieces in the order they were opened. |
| Xml.OpenAtLineStart | src/xml.cpp:133-152 | At the start of a line, opening a tag writes the indentation, `<` and the name. |
| Xml.NodeText | src/xml.hpp:3-13 | From the start of a line at depth `d`, writing an element appends exactly its reference serialisation and returns to the start of a line at depth `d`. |
| Xml.LeafText | src/xml.hpp:8 | An element with empty content self-closes on one line. |
| Xml.TextText | src/xml.hpp:10 | Text content is written inline between the start and end tags. |
| Xml.ChildrenText | src/xml.hpp:9 | With element content, the first child starts a new line and the end tag gets a line of its own. |
| Xml.NodesText | src/xml.hpp:9 | Sibling elements are written one line each, in order. |
| Xml.DocumentText | src/xml.cpp:10-37 | A whole document is the declaration line, then the root element's serialisation. The destructor's final flush adds nothing. |
| Xml.LeafRender | src/xml.hpp:8 | An empty element renders as the indentation and `<name attrs/>` on one line. |
| Xml.TextRender | src/xml.hpp:10 | An element with text renders as `<name>text</name>` on one line. |
| Xml.ParentRender | src/xml.hpp:9 | An element with children renders as its start-tag line, the children one level deeper, then its end-tag line. |
| Xml.RootOnlyText | src/test-run/test-xml.cpp:4-8 | A lone empty root writes `<root/>`. |
| Xml.RootAttrText | src/test-run/test-xml.cpp:10-15 | A root with an empty-valued attribute writes `<root a=""/>`. |
| Xml.RootContentText | src/test-run/test-xml.cpp:17-22 | A root with text writes `<root>text</root>`. |
| Xml.RootChildrenText | src/test-run/test-xml.cpp:24-32 | Three empty children are written on their own lines, indented by two spaces. |
| Xml.FancyText | src/test-run/test-xml.cpp:34-56 | Three attributes appear in the order opened, the empty one included, over two levels of nesting with text at the bottom. |
| Xml.PlainRun | src/xml.cpp:97 | `strcspn` finds the maximal run of ordinary characters: it ends at a special character or at the end of the string. |
| Xml.EscapeText | src/xml.cpp:95-129 | The loop of `emit_string` copies runs and replaces special characters. It builds exactly the escaped text. |
| Xml.XmlOutput.constructor | src/xml.cpp:10-25 | The new writer's state is `Start()`: the declaration and a newline, at indent 0. |
| Xml.XmlOutput.Close | src/xml.cpp:27-37 | The destructor demands indent 0 with no tag or attribute open, and its flush is the last write. |
| Xml.XmlOutput.Write | src/xml.cpp:70-77 | The output file receives exactly `s`. |
| Xml.XmlOutput.Flush | src/xml.cpp:39-52 | The new state is the flushed state. |
| Xml.XmlOutput.EmitSpaces | src/xml.cpp:54-65 | Writing 32-space chunks appends exactly `n` spaces. |
| Xml.XmlOutput.EmitRaw | src/xml.cpp:67-78 | A flush, then the text as it is. |
| Xml.XmlOutput.EmitNewline | src/xml.cpp:80-85 | A flush and `\n`, then `start_of_line` is set and `soft_newline` cleared. |
| Xml.XmlOutput.EmitString | src/xml.cpp:87-130 | Only printable ASCII is accepted. Non-empty text is flushed and written escaped; the empty string writes nothing. |
| Xml.XmlOutput.EmitNat | src/dump-v1.cpp:119-131 | An unsigned number is written as its decimal digits after a flush. |
| Xml.XmlTag.constructor | src/xml.cpp:133-152 | Opening a tag scope changes the writer as `OpenTag` does. |
| Xml.XmlTag.Moved | src/xml.hpp:64 | The moved-to scope takes over the writer, and the moved-from one is left inert. |
| Xml.XmlTag.Close | src/xml.cpp:154-174 | The destructor closes the tag as `CloseTag` does. A moved-from scope does nothing. |
| Xml.XmlAttr.constructor | src/xml.cpp:176-187 | Opening an attribute scope changes the writer as `OpenAttr` does. |
| Xml.XmlAttr.Moved | src/xml.hpp:77 | The moved-to scope takes over the writer, and the moved-from one is left inert. |
| Xml.XmlAttr.Close | src/xml.cpp:189-201 | The destructor writes the closing quote and returns to the in-tag state. A moved-from scope does nothing. |
| HexDump.DigitRoundTrip | src/dump-v1.cpp:803 | Each digit is the table entry for its value, reads back as that value, and is neither a space nor a newline. |
| HexDump.ByteRoundTrip | src/dump-v1.cpp:811 | A byte's two digits, high nibble first, determine the byte. |
| HexDump.LineLength | src/dump-v1.cpp:994-996 | A line of `k` bytes is `3k-1+(k-1)/4` characters long. |
| HexDump.LineLenStep | src/dump-v1.cpp:809-879 | Byte `j` starts after the line of the `j` bytes before it and its gap, and its two digits end the line of `j+1` bytes. |
| HexDump.PosStep | src/dump-v1.cpp:809-879 | The column advances by three per byte, and by one more before bytes 4, 8 and 12. |
| HexDump.LineColumns | src/dump-v1.cpp:802-879 | Byte `t` has its high digit at column `Pos(t)` and its low digit right after. The columns between bytes hold a gap of one or two spaces. |
| HexDump.LineLayout | src/dump-v1.cpp:802-882 | A line has the length given by its byte count, a full line is 50 characters, and no line contains a newline. |
| HexDump.LineRoundTrip | src/dump-v1.cpp:797-1000 | A dump line determines its bytes: parsing it back gives them in order. |
| HexDump.Hex | src/dump-v1.cpp:797-1000 | Dumping bytes leaves the open elements and attribute as they were and keeps a valid writer valid. |
| HexDump.HexEmpty | src/dump-v1.cpp:797-1000 | Zero bytes write nothing, not even the pending flush. |
| HexDump.HexShort | src/dump-v1.cpp:887-999 | One to sixteen bytes are one inline line with no newline. |
| HexDump.HexLong | src/dump-v1.cpp:797-1000 | More than sixteen bytes: a newline, then lines of sixteen bytes with the last one shorter or full, each indented and ended by a newline. |
| HexDump.FullLineBlank | src/dump-v1.cpp:802 | The declared buffer, like every full line, has its gap columns in place. |
| HexDump.WriteKeepsBlank | src/dump-v1.cpp:811 | Writing a byte's two digit columns keeps every gap. |
| HexDump.PutByte | src/dump-v1.cpp:811 | After the two digit writes, the buffer holds one more byte of the line, gaps intact. |
| HexDump.NextByte | src/dump-v1.cpp:813-829 | One step of the column arithmetic lands on the next byte's column, and the buffer grows by that byte. |
| HexDump.FillLine | src/dump-v1.cpp:887-996 | The buffer's first `LineLen(k)` characters are the line of the `k` bytes, and that is the length emitted. |
| HexDump.EmitFullLine | src/dump-v1.cpp:805-885 | One pass of the loop writes a full line and a newline. |
| HexDump.EmitFullLines | src/dump-v1.cpp:805-886 | The loop consumes lines of sixteen while more than sixteen bytes are left. What remains to write is the dump of the rest. |
| HexDump.XEmitHex | src/dump-v1.cpp:797-1000 | `xemit_hex` leaves the writer as `Hex` of the bytes. |
| Emit.TreeRefText | src/dump-v1.cpp:707-715 | A node reference is written as `@` and its interned id, and the node is interned. |
| Emit.RefRoundTrip | src/dump-v1.cpp:707-715 | The reference text is `@` and digits, and the id read back from it indexes the node in the interned list. |
| Emit.UnsignedText | src/dump-v1.cpp:119-131 | A number written through the output file reads like its digits written as a string. |
| Emit.IndexPairText | src/dump-v1.cpp:723-733 | `index_pair` reads `array[index]`. A node index is interned. |
| Emit.FieldPairText | src/dump-v1.cpp:740-749 | `field_pair` reads `array[at].field`. |
| Emit.QuotesEscaped | src/dump-v1.cpp:495-497 | The location's delimiters are escaped: `&lt;`/`&gt;` for a system header, `&quot;` otherwise. |
| Emit.LocationWrites | src/dump-v1.cpp:490-503 | With nothing pending, a location appends its text. |
| Emit.LocationRoundTrip | src/dump-v1.cpp:490-503 | Unescaped, the location text is the file (or `(null)`) between its delimiters, then `:line:column`. |
| Emit.MarkerText | src/dump-v1.cpp:62-65 | `xml0(tag)` at the start of a line writes `<tag/>` on a line of its own. |
| Emit.MarkerRefText | src/dump-v1.cpp:66-72 | `xml0(tag, k, t)` writes `<tag k="@id"/>` on a line of its own and interns `t`. |
| Emit.ElementNatText | src/dump-v1.cpp:89-94 | `xml1(tag, n)` writes `<tag>n</tag>` on a line of its own. |
| Emit.ElementRefText | src/dump-v1.cpp:89-94 | `xml1(tag, t)` writes `<tag>@id</tag>` on a line of its own and interns `t`. |
| Dump.Steps | src/dump-v1.cpp:1048-1140 | The shadow left by a node's rules does not depend on what was written: it is `SweptAll` of the rules. The rules open no element that they do not close. |
| Dump.SweptBytes | src/dump-v1.cpp:1015-1140 | A rule changes only bytes of its own field, and a value take leaves its field zero. |
| Dump.SweptAllBytes | src/dump-v1.cpp:1015-1140 | A byte no rule covers keeps its value. When every rule takes a whole field, a byte some rule covers ends up zero. |
| Dump.Completeness | src/dump-v1.cpp:2957-2965 | A node with a nonzero byte covered neither by its code nor by any rule is reported incomplete. When its rules all take whole fields, it is reported exactly then. |
| Dump.OneBitRule | src/dump-v1.cpp:1111-1123 | A `DO_BIT` on a one-bit bit-field at any bit of its word always passes `BIT`'s assertion. It writes its marker iff that bit is set in the original node. |
| Dump.MaskedSwept | src/dump-v1.cpp:1023-1030 | `DO_BIT` and `DO_FLAG` leave no bit of their mask in the shadow word, keep every other bit of it, and change no byte outside it. |
| Dump.ShadowReadsOriginal | src/dump-v1.cpp:1048-1054 | A `DO_LVAL` take of a field that no earlier rule of the node touched reads from the shadow the same value the original node holds there. |
| Dump.TreeIncomplete | src/dump-v1.cpp:2961-2965 | `dump_tree` flags a node iff it is non-null and incomplete, whatever was written before it. |
| Dump.NullTree | src/dump-v1.cpp:1207-1211 | The null entry writes `<tree id="@0"/>` on a line of its own, leaves the interner unchanged and counts nothing. |
| Dump.StepRefs | src/dump-v1.cpp:1056-1063 | A rule interns the node it writes and nothing else. |
| Dump.StepsRefs | src/dump-v1.cpp:1048-1140 | A node's rules intern, in order, the references they write. |
| Dump.TreeRefs | src/dump-v1.cpp:1199-1212 | `dump_tree(t)` interns `t` first, then what its rules write. |
| Dump.BoundedSize | src/dump-v1.cpp:3185-3188 | An interner holding only null and nodes of the graph has at most one entry more than the graph, which bounds the loop. |
| Dump.DumpEachSnoc | src/dump-v1.cpp:3185-3188 | Dumping one more entry extends the output, the incomplete count and the interned references of the entries before it. |
| Dump.DumpEachRefs | src/dump-v1.cpp:3185-3188 | Dumping a list of entries interns exactly the references their dumps write, in order. |
| Dump.NodeRefsCover | src/dump-v1.cpp:1199-1212 | In a closed graph, what one dump interns lies in the graph and includes the entry and every reference its rules write. |
| Dump.DumpedRefsCover | src/dump-v1.cpp:3185-3188 | In a closed graph, dumping a list interns only null and graph nodes. This includes every entry and every reference a dumped node writes. |
| Dump.DumpEachTable | src/dump-v1.cpp:3185-3188 | Dumping keeps the interner bounded by the graph and keeps its old entries. Afterwards every entry and every reference written is interned. |
| Dump.TreeGrows | src/dump-v1.cpp:1199-1212 | `dump_tree` only appends to the interned list. |
| Dump.DumpNext | src/dump-v1.cpp:3185-3188 | One more turn of the loop extends output, count and list, keeping the list's prefix and its bound. |
| Dump.DumpClosed | src/dump-v1.cpp:3185-3188 | Once the loop has dumped every entry of the list it grew, every reference a dumped node writes is in that list. |
| Dump.ListClosed | src/intern.cpp:11-13 | A list whose map holds every reference its entries write also holds them in the list. |
| Dump.OperandSlots | src/dump-v1.cpp:1929-1934 | The operand table starts with every slot empty, except that slot 0 of a variable-length expression is `vl-operand-count`. |
| Dump.NewOperandNames | src/dump-v1.cpp:1929-1934 | The allocated table holds those initial slots. |
| Dump.OperandNames | src/dump-v1.cpp:1936-1943 | The `CALC_OPERAND_NAME` calls pass their assertions iff each index is in range, not named before and named once. Then each operand is called by its given name, the count slot by its own name, and every other operand `operand` (line 2187). |
| Dump.Dumper.constructor | src/dump-v1.cpp:34 | `incomplete_dumps` starts at 0. |
| Dump.Dumper.EmitTree | src/dump-v1.cpp:707-715 | Writing a node reference changes writer and interner as `TreeRef` does. |
| Dump.Dumper.Xml0 | src/dump-v1.cpp:62-65 | `xml0(tag)` writes an empty element. |
| Dump.Dumper.Xml0Ref | src/dump-v1.cpp:66-72 | `xml0(tag, k, t)` writes an empty element with one attribute holding the reference. |
| Dump.Dumper.Xml1Nat | src/dump-v1.cpp:89-94 | `xml1(tag, n)` writes an element holding the number. |
| Dump.Dumper.Xml1Ref | src/dump-v1.cpp:89-94 | `xml1(tag, t)` writes an element holding the reference. |
| Dump.Dumper.Xml1Text | src/dump-v1.cpp:89-94 | `xml1(tag, s)` writes an element holding the escaped string. |
| Dump.Dumper.OpenRef | src/dump-v1.cpp:82-86 | `Xml(tag, k, t)` opens the element with its attribute and leaves it open, one level deeper. |
| Dump.Dumper.OpenPlain | src/dump-v1.cpp:78-80 | `Xml(tag)` opens the element and leaves it open. |
| Dump.Dumper.ClosePlain | src/xml.cpp:154-174 | The end of an `Xml` scope closes its element. |
| Dump.Dumper.DumpRemaining | src/dump-v1.cpp:1006-1012 | `dump_remaining` writes a `remaining` element around the hex dump of the whole shadow. |
| Dump.Dumper.ApplyRule | src/dump-v1.cpp:1048-1140 | One `DO_*`, `CDO_*`, `DO_BIT` or `DO_FLAG` line changes output, interner and shadow as `Step` does. A `DO_BIT` reads its bit-field from the original node and zeroes only that bit-field in the shadow. |
| Dump.Dumper.ApplyRules | src/dump-v1.cpp:1048-1140 | A node's rules, in order, change output, interner and shadow as `Steps` does. |
| Dump.Dumper.CheckRemaining | src/dump-v1.cpp:2959-2965 | With the code cleared, a shadow that is not all zero is dumped, and `incomplete_dumps` goes up by exactly one. Otherwise nothing happens. |
| Dump.Dumper.DumpRules | src/dump-v1.cpp:1374 | The `code` element, then the node's rules against a shadow that starts as a copy of the node. |
| Dump.Dumper.DumpContents | src/dump-v1.cpp:1214-1218 | A node's contents are written from a fresh shadow copy. The count goes up by one iff the node is incomplete. |
| Dump.Dumper.DumpNode | src/dump-v1.cpp:1212 | The element of a non-null node is opened with its id and closed after its contents. |
| Dump.Dumper.DumpTree | src/dump-v1.cpp:1199-1212 | `dump_tree` writes and interns as `TreeSpec` says. The count goes up by one iff the node is non-null and incomplete. |
| Dump.Dumper.DumpEntry | src/dump-v1.cpp:3185-3188 | One turn of the loop dumps entry `i`, keeps the list's prefix and extends the loop invariant to `i + 1`. |
| Dump.Dumper.DumpList | src/dump-v1.cpp:3185-3188 | The index loop dumps every entry of the final list exactly once, in order, including entries appended during the loop. The count goes up by the incomplete ones, and every reference a dumped node writes is in the list. |
| Dump.Dumper.AllDumped | src/dump-v1.cpp:3185-3188 | When the index reaches the list's length, the whole list has been dumped and it is closed. |
| Dump.Dumper.DumpTrees | src/dump-v1.cpp:3182-3195 | The `trees` element holds the dump of every list entry. A warning is produced iff the count is nonzero, and it gives the count and the list's length. |
| Dump.Dumper.IncompleteWarning | src/dump-v1.cpp:3191-3195 | There is a warning iff `incomplete_dumps` is nonzero, and it carries that count and the list's length. |
| Names.Name | src/names.cpp:60 | `NAME` demands an index in range and an empty slot. It then stores the name there and changes no other slot. |
| Names.FillWriteOnce | src/names.cpp:60 | A run of `NAME` calls passes its assertions iff its indices are in range, distinct and initially empty. Then each named slot holds its name and every other slot is unchanged. |
| Names.NameAll | src/names.cpp:82-90 | The start-up body for one table leaves it as `Fill` says. |
| Names.CheckArray | src/names.cpp:66-80 | There is no report iff every slot is filled. Otherwise the report is the first empty index, with the previous slot's name when the index is not 0. |
| Names.ReportLines | src/names.cpp:73-76 | The report has three lines when the index is above 0, else two. |
| Names.TlsModelNamesChecked | src/names.cpp:862-868 | The six models map, in order, to their names, with `TLS_MODEL_REAL` reading `global_dynamic` (table at lines 26-34). The names are pairwise distinct. |
| Init.Lookup | src/init.cpp:111-118 | Exactly the five option keys are known. |
| Init.SetterRules | src/init.cpp:65-90 | A flag accepts iff no value is given and a string iff one is. An accepted flag reads true and an accepted string reads as its value. A rejection changes nothing, and no setter touches another field. |
| Init.UnknownSkipped | src/init.cpp:219-233 | Unknown keys are skipped: the record built is the one the known arguments alone build, and later arguments are still processed. |
| Init.WarningCount | src/init.cpp:219-233 | Exactly one warning is printed per argument that is not applied. |
| Init.Options.constructor | src/init.cpp:28-31 | All options default to false or null. |
| Init.Options.SetOption | src/init.cpp:52-56 | A setter writes through its member pointer as `Set` says and returns its verdict. |
| Init.ParseArguments | src/init.cpp:217-233 | The loop builds the record and the warnings that `Parse` gives. |
| Init.CodesDistinct | include/vomitorium.h:27-44 | The frontend codes are pairwise distinct. |
| Init.FrontendOf | src/init.cpp:139-151 | The name map never yields none, unknown, JIT, LTO or Objective-C++. |
| Init.StripDigitsSpec | src/init.cpp:158-161 | Stripping keeps a prefix that does not end in a digit and removes only digits. |
| Init.StripYear | src/init.cpp:159-161 | Appending a year to a name not ending in a digit does not change what it strips to. |
| Init.Memoised | src/init.cpp:154-196 | Detection always settles on a frontend, and a later call returns it whatever the language hook and dialect say then. Only the detecting call is held to the dialect assertions. |
| Init.DetectOutcomes | src/init.cpp:162-193 | An unmatched name gives unknown. "GNU C++" with the Objective-C++ dialect gives Objective-C++, and Objective-C++ arises in no other way. |
| Init.DetectWithYear | src/init.cpp:158-162 | A year at the end of the language name is ignored. |
| Init.FrontendState.constructor | src/init.cpp:153 | The stored frontend starts uninitialized. |
| Init.FrontendState.CalcFrontend | src/init.cpp:154-196 | The stored frontend becomes `Calc` of the old one. A warning is printed iff detection ran and found an unknown name. With a frontend stored, any name and dialect are accepted. |
| Init.TrimDigits | src/init.cpp:160-161 | The shrinking loop removes exactly the trailing digits. |
| Visitor.LayoutFits | include/vomitorium.h:48-75 | Each member lies inside the struct, and distinct members occupy disjoint bytes. |
| Visitor.OlderClient | include/vomitorium.h:78-79 | A client compiled against the struct up to some member sees exactly the members up to it, and reads every later one as null. |
| Visitor.GetFieldMonotone | include/vomitorium.h:78 | A larger recorded size never hides a member that a smaller one showed. |
| Visitor.VisitorStruct.Init | include/vomitorium.h:82-86 | Init leaves `_size` at the full size and every other member zero. |
| Visitor.InitReachesAll | include/vomitorium.h:82-86 | After init, every member is reachable through the bounded accessor. `_size` reads as the full size and every callback as null. |

## Left out

- GCC's field catalogue inside `dump_tree` (`src/dump-v1.cpp:1220-2955`): the per-code switch, the accessor macros and their headers. A `Schema` of rules stands for it.
- `dump_cci`, the operand loop and the other hand-written parts of the catalogue: the model has the operand names but not the loop that writes `<operand op_i=...>` and clears non-null operands in the shadow (`src/dump-v1.cpp:2184-2194`).
- The emitters of enums, `real_value`, `fixed_value`, `mpz_t`, `double_int`, `wide_int`, signed integers and GCC structures (`src/dump-v1.cpp:96-690`): they call GCC or print placeholders.
- Emit.Location: the line and column of an expanded location are `int`s written through the signed emitter (`%jd`, `src/dump-v1.cpp:133-141`, `:499`, `:501`). The model takes them as naturals written by the unsigned one. The text is the same for the non-negative values GCC produces, and a negative line or column is not modelled.
- `get_tree_code_name`, `GET_MODE_NAME` and `expand_location`: GCC calls. A code's name comes from the schema, and a location is given already expanded.
- The `globals` section of `dump_all` and `global1`/`globalv`: the list of GCC globals is GCC's. `Emit.GlobalEntry` gives one entry's format without a contract.
- `src/events.cpp`, `src/dump.cpp`, `src/weak.cpp` and `src/weak-check.cpp`: callback registration, pointer printing and linker tricks.
- `check_initialized` and the plugin version check in `plugin_init` (`src/init.cpp:121-136`, `src/init.cpp:202-215`): they register callbacks and compare GCC data.
- What `plugin_init` does with the options after the loop: `fopen`, printing the info text and the hello message (`src/init.cpp:235-283`).
- Real I/O in the writer: the output is an appended string. `fwrite`'s partial writes, the retry loops and `abort` on failure, and `fclose`/`fflush` are not modelled, nor is the `abort` on a null file in the constructor.
- `xml.tcc` is not part of this model. `tag(t)` and `attr(a)` are taken to construct `XmlTag`/`XmlAttr` on the writer. `with_output_file(f)` is taken to flush, then let `f` write. The move constructors are taken to leave the moved-from scope with a null writer. Move assignment is not modelled.
- The VLA and its alignment in `dump_tree` and `jiggle`: the shadow is an owned array.
- The `#if V(...)` variants: one configuration is modelled. The frontend map includes Brig and D.
- The visitor struct's layout is the LP64 one (8-byte members, no padding).
- The node's code is an ordinary field of the schema, cleared at the end as `TREE_SET_CODE(bitmask_tree, 0)` does.
- Dump.Dumper.DumpList: requires the graph to be closed under the references its nodes write (every reference written is null or a node of the graph), because the model's graph is finite. In GCC every written reference is itself a node.
- Dump.Dumper.DumpTrees: requires the same closed graph, for the same reason.
- Dump.Dumper.ApplyRule: requires each rule's field to lie inside the node, which GCC's accessors ensure by construction. The bit-field a `DO_BIT` reads must hold 0 or 1, as `BIT` asserts. A one-bit bit-field always does (`Dump.OneBitRule`). A rule shown as a node must read the original node. A `DO_LVAL` of a tree field, such as `class-template-info` and `label-value` of the C++ identifier (`src/dump-v1.cpp:1889-1891`), is written as an original take. It reads the same value because no earlier rule of the node touches that field (`Dump.ShadowReadsOriginal`).
- Value rules (`DO_*`, `CDO_*`) take whole fields of whole bytes. A bit-field shown as a number, such as a packed enum, is not modelled: its take would clear the neighbouring bit-fields of its word as well.
- Dump.Completeness: the exact "incomplete iff some nonzero byte is unconsumed" is proved only for nodes whose rules all take whole fields. With `DO_BIT`/`DO_FLAG` rules, which clear bits rather than bytes, only the direction "an unconsumed nonzero byte makes the node incomplete" is proved. What those rules leave is stated bit by bit in `Dump.MaskedSwept`.
- Init.FrontendState.CalcFrontend: when no frontend is stored yet, requires the C-family dialect to agree with the detected name, as the assertions of `vomitorium_calc_frontend` demand.
- Assertions in the source are modelled as `requires`. This covers `emit_string`'s printable check, the `in_tag`/`in_attribute` checks of the `XmlTag` and `XmlAttr` constructors, the indent-0 check of the `XmlOutput` destructor, `NAME`'s range and write-once checks, `CALC_OPERAND_NAME`'s checks, `BIT`, and the frontend dialect checks. The source aborts where the model's precondition fails.
- Names.CheckArray: the printing is `Names.ReportLines`, and `printf` of an empty previous slot (which the scan makes impossible) reads `(null)`.
