/**
  * The tree dumper of `dump-v1.cpp`, with GCC's field catalogue replaced
  * by a schema: for each tree code, the list of fields the dumper takes
  * and how it writes them. Each node is dumped against a shadow copy of
  * its bytes; every take zeroes its field in the copy, so bytes still
  * nonzero at the end were not dumped and are reported in a `remaining`
  * element. Dumping a reference interns it, so the list of nodes to dump
  * grows while it is drained.
  */
module Dump {

  import opened Wrappers
  import opened Bytes
  import opened Xml
  import opened HexDump
  import opened Intern
  import opened Shadow
  import opened Emit
  import Names
  import Text

  /** `DO_*` writes its element whatever the value; `CDO_*` only for a nonzero one. */
  datatype Presence = Always | IfNonzero

  /** How a value is written: as an unsigned number, or as a node reference `@id`. */
  datatype Shown = AsNumber | AsNode

  /** `TAKE1`, `TAKE_I`, `TAKE2` read the original node; `TAKE0` (`DO_LVAL`) reads the shadow. */
  datatype Source = Original | Shadowed

  /** One line of the catalogue, applied to the node being dumped. */
  datatype Rule =
    | Value(name: string, field: Field, from: Source, presence: Presence, shown: Shown)  // DO_*, CDO_*
    | Bit(name: string, field: Field, mask: nat)                                       // DO_BIT, DO_BIT2
    | Flag(name: string, field: Field, mask: nat)                                      // DO_FLAG

  /** A tree code: its name and the rules for nodes of that code. */
  datatype Kind = Kind(name: string, rules: seq<Rule>)

  /** Where the code of a node is, and the kind each code stands for. */
  datatype Schema = Schema(code: Field, kinds: map<nat, Kind>)

  /** The nodes in memory: the bytes of each non-null reference. */
  type Graph = map<Ref, seq<byte>>

  /**
    * A rule can be applied to a node: its field lies inside the node, the
    * bit-field a `DO_BIT` reads (the bits of its mask in the word `field`)
    * holds 0 or 1 (the assertion in `BIT`), and a reference is read from
    * the original node.
    */
  predicate Admissible(orig: seq<byte>, r: Rule) {
    && Within(r.field, |orig|)
    && (r.Bit? ==> r.mask > 0 && Extract(Get(orig, r.field), r.mask) <= 1)
    && (r.Value? && r.shown == AsNode ==> r.from == Original)
  }

  predicate Fits(orig: seq<byte>, rules: seq<Rule>) {
    forall i :: 0 <= i < |rules| ==> Admissible(orig, rules[i])
  }

  /** `xml1(name, v)` for a value shown as `shown`. */
  function Element(k: Sink, name: string, v: nat, shown: Shown): Sink {
    if shown == AsNumber then ElementNat(k, name, v) else ElementRef(k, name, v)
  }

  /** Whether a value rule writes its element. */
  predicate Written(presence: Presence, v: nat) {
    presence == Always || v != 0
  }

  /** The value a value rule takes. */
  function Taken(orig: seq<byte>, shadow: seq<byte>, r: Rule): nat
    requires r.Value? && |orig| == |shadow| && Within(r.field, |shadow|)
  {
    if r.from == Original then Get(orig, r.field) else Get(shadow, r.field)
  }

  /**
    * The shadow after one rule: a value take zeroes its field, a `DO_BIT`
    * zeroes its bit-field, and `DO_FLAG` clears its bits when one is set.
    */
  function Swept(shadow: seq<byte>, r: Rule): (res: seq<byte>)
    requires Within(r.field, |shadow|)
    ensures |res| == |shadow|
  {
    match r
    case Value(_, f, _, _, _) => Cleared(shadow, f)
    case Bit(_, f, m) => ClearedBits(shadow, f, m)
    case Flag(_, f, m) =>
      var v := Get(shadow, f);
      if And(v, m) != 0 then Put(shadow, f, AndNot(v, m)) else shadow
  }

  /** The shadow after the rules, in order. */
  function SweptAll(orig: seq<byte>, shadow: seq<byte>, rules: seq<Rule>): (res: seq<byte>)
    requires |orig| == |shadow| && Fits(orig, rules)
    ensures |res| == |shadow|
    decreases |rules|
  {
    if rules == [] then shadow else Swept(SweptAll(orig, shadow, rules[..|rules| - 1]), rules[|rules| - 1])
  }

  /** Applying one rule: what is written, and the shadow afterwards. */
  function Step(k: Sink, orig: seq<byte>, shadow: seq<byte>, r: Rule): (res: (Sink, seq<byte>))
    requires |orig| == |shadow| && Admissible(orig, r)
    ensures res.0.w.indent == k.w.indent
  {
    var written := match r
      case Value(name, _, _, presence, shown) =>
        var v := Taken(orig, shadow, r);
        if Written(presence, v) then Element(k, name, v, shown) else k
      case Bit(name, f, m) =>
        if Extract(Get(orig, f), m) != 0 then Marker(k, name) else k
      case Flag(name, f, m) =>
        if And(Get(shadow, f), m) != 0 then Marker(k, name) else k;
    (written, Swept(shadow, r))
  }

  /** Applying the rules in order. */
  function Steps(k: Sink, orig: seq<byte>, shadow: seq<byte>, rules: seq<Rule>): (res: (Sink, seq<byte>))
    requires |orig| == |shadow| && Fits(orig, rules)
    ensures res.1 == SweptAll(orig, shadow, rules)
    ensures res.0.w.indent == k.w.indent
    decreases |rules|
  {
    if rules == [] then (k, shadow)
    else
      var (k1, s1) := Steps(k, orig, shadow, rules[..|rules| - 1]);
      Step(k1, orig, s1, rules[|rules| - 1])
  }

  /** Every node of the graph has a known code and rules that fit it, and every name is printable. */
  predicate NodeOk(s: Schema, orig: seq<byte>) {
    && Within(s.code, |orig|)
    && Get(orig, s.code) in s.kinds
    && Fits(orig, s.kinds[Get(orig, s.code)].rules)
  }

  function RulesOf(s: Schema, orig: seq<byte>): seq<Rule>
    requires NodeOk(s, orig)
  {
    s.kinds[Get(orig, s.code)].rules
  }

  predicate GraphOk(s: Schema, g: Graph) {
    forall t :: t in g ==> t != Null && NodeOk(s, g[t])
  }

  /** The shadow after all rules, with the code cleared (`TREE_SET_CODE(bitmask_tree, 0)`). */
  function Residue(s: Schema, orig: seq<byte>): (r: seq<byte>)
    requires NodeOk(s, orig)
    ensures |r| == |orig|
  {
    Cleared(SweptAll(orig, orig, RulesOf(s, orig)), s.code)
  }

  /** A node some byte of which no rule consumed. */
  predicate Incomplete(s: Schema, orig: seq<byte>)
    requires NodeOk(s, orig)
  {
    !AllZero(Residue(s, orig))
  }

  /** `dump_remaining`: a `remaining` element holding the hex dump of the whole shadow. */
  function Remaining(k: Sink, residue: seq<byte>): (r: Sink)
    ensures r.w.indent == k.w.indent && r.tb == k.tb
  {
    var k1 := Open(k, "remaining");
    Close(k1.(w := Hex(k1.w, residue)), "remaining")
  }

  /**
    * The end of `dump_tree`: with the code cleared, a shadow that is not
    * all zero is reported and the node counts as incomplete.
    */
  function Finish(k: Sink, s: Schema, shadow: seq<byte>): (res: (Sink, bool))
    requires Within(s.code, |shadow|)
    ensures res.0.w.indent == k.w.indent && res.0.tb == k.tb
  {
    var residue := Cleared(shadow, s.code);
    if AllZero(residue) then (k, false) else (Remaining(k, residue), true)
  }

  /** Everything inside the `tree` element of a non-null node. */
  function Contents(k: Sink, s: Schema, orig: seq<byte>): (res: (Sink, bool))
    requires NodeOk(s, orig)
    ensures res.0.w.indent == k.w.indent
  {
    var k1 := ElementText(k, "code", s.kinds[Get(orig, s.code)].name);
    var (k2, shadow) := Steps(k1, orig, orig, RulesOf(s, orig));
    Finish(k2, s, shadow)
  }

  /**
    * `dump_tree(t)`: for null an empty `tree` element whose `id` is the
    * reference `@0`; otherwise the element with the node's reference as its
    * `id`, around its contents. The flag says whether the node was
    * incomplete.
    */
  function TreeSpec(k: Sink, s: Schema, g: Graph, t: Ref): (res: (Sink, bool))
    requires GraphOk(s, g) && (t == Null || t in g)
    ensures res.0.w.indent == k.w.indent
  {
    if t == Null then (MarkerRef(k, "tree", "id", t), false)
    else
      var (k1, incomplete) := Contents(OpenWithRef(k, "tree", "id", t), s, g[t]);
      (Close(k1, "tree"), incomplete)
  }

  // What the rules leave in the shadow.

  /**
    * The null entry of the list: `<tree id="@0"/>` on a line of its own,
    * the interner unchanged, and nothing counted as incomplete.
    */
  lemma NullTree(k: Sink, s: Schema, g: Graph, d: nat)
    requires GraphOk(s, g) && AtLineStart(k.w, d) && Valid(k.w) && Consistent(k.tb)
    ensures TreeSpec(k, s, g, Null) == (k.(w := k.w.(out := k.w.out + Render(AttrNode("tree", "id", "@0"), d))), false)
  {
    NullIsZero(k.tb);
    assert RefText(0) == "@0" by { assert Text.Decimal(0) == [Text.DigitChar(0)] == "0"; }
    MarkerRefText(k, "tree", "id", Null, d);
  }

  /** Rules that take whole fields: `DO_BIT` and `DO_FLAG` clear only the bits of their masks. */
  predicate AllTakes(rules: seq<Rule>) {
    forall j :: 0 <= j < |rules| ==> rules[j].Value?
  }

  /** Some rule's field covers byte `i`. */
  predicate Touched(rules: seq<Rule>, i: int) {
    exists j :: 0 <= j < |rules| && Covers(rules[j].field, i)
  }

  /** One rule changes only bytes of its own field, and a take leaves its field zero. */
  lemma SweptBytes(shadow: seq<byte>, r: Rule, i: nat)
    requires Within(r.field, |shadow|) && i < |shadow|
    ensures !Covers(r.field, i) ==> Swept(shadow, r)[i] == shadow[i]
    ensures r.Value? && Covers(r.field, i) ==> Swept(shadow, r)[i] == 0
  {
    match r
    case Value(_, f, _, _, _) =>
      ClearedBytes(shadow, f);
    case Bit(_, f, m) =>
      BitsCleared(shadow, f, m, 0, i);
    case Flag(_, f, m) =>
      var v := Get(shadow, f);
      if And(v, m) != 0 {
        PutBytes(shadow, f, AndNot(v, m));
      }
  }

  /**
    * Byte by byte: a byte no rule covers keeps its value, and when every
    * rule takes a whole field a byte some rule covers ends up zero.
    */
  lemma {:induction false} SweptAllBytes(orig: seq<byte>, shadow: seq<byte>, rules: seq<Rule>, i: nat)
    requires |orig| == |shadow| && Fits(orig, rules) && i < |shadow|
    ensures !Touched(rules, i) ==> SweptAll(orig, shadow, rules)[i] == shadow[i]
    ensures AllTakes(rules) && Touched(rules, i) ==> SweptAll(orig, shadow, rules)[i] == 0
    decreases |rules|
  {
    if rules != [] {
      var front := rules[..|rules| - 1];
      var r := rules[|rules| - 1];
      SweptAllBytes(orig, shadow, front, i);
      SweptBytes(SweptAll(orig, shadow, front), r, i);
      TouchedSnoc(rules, i);
      if AllTakes(rules) {
        assert r.Value?;
        assert AllTakes(front);
      }
    }
  }

  /**
    * A `DO_BIT` on a one-bit bit-field at bit `b` of its word can always be
    * applied, and it writes its marker exactly when that bit is set in the
    * original node.
    */
  lemma OneBitRule(k: Sink, orig: seq<byte>, shadow: seq<byte>, name: string, f: Field, b: nat)
    requires |orig| == |shadow| && Within(f, |orig|)
    ensures Admissible(orig, Bit(name, f, Pow2(b)))
    ensures Step(k, orig, shadow, Bit(name, f, Pow2(b))).0 == if BitAt(Get(orig, f), b) == 1 then Marker(k, name) else k
  {
    OneBit(Get(orig, f), b);
  }

  /**
    * `DO_BIT` and `DO_FLAG` leave no bit of their mask in the word, keep
    * every other bit of it, and change nothing outside it.
    */
  lemma MaskedSwept(shadow: seq<byte>, r: Rule, k: nat, i: nat)
    requires !r.Value? && Within(r.field, |shadow|) && i < |shadow|
    ensures And(Get(Swept(shadow, r), r.field), r.mask) == 0
    ensures And(k, r.mask) == 0 ==> And(Get(Swept(shadow, r), r.field), k) == And(Get(shadow, r.field), k)
    ensures !Covers(r.field, i) ==> Swept(shadow, r)[i] == shadow[i]
  {
    if r.Bit? {
      BitsCleared(shadow, r.field, r.mask, k, i);
    } else {
      FlagClears(shadow, r.field, r.mask, k);
      SweptBytes(shadow, r, i);
    }
  }

  /**
    * `DO_LVAL` reads its field from the shadow; when no earlier rule of the
    * node touches any byte of that field, the shadow still holds the
    * original value there, so the read is the same as an original take.
    */
  lemma ShadowReadsOriginal(orig: seq<byte>, rules: seq<Rule>, f: Field)
    requires Fits(orig, rules) && Within(f, |orig|)
    requires forall i :: Covers(f, i) ==> !Touched(rules, i)
    ensures Get(SweptAll(orig, orig, rules), f) == Get(orig, f)
  {
    var swept := SweptAll(orig, orig, rules);
    forall i | f.offset <= i < f.offset + f.size
      ensures swept[i] == orig[i]
    {
      assert Covers(f, i);
      SweptAllBytes(orig, orig, rules, i);
    }
    assert swept[f.offset..f.offset + f.size] == orig[f.offset..f.offset + f.size];
  }

  /** A byte is touched by some rule when it is touched by the last or by one before it. */
  lemma TouchedSnoc(rules: seq<Rule>, i: nat)
    requires rules != []
    ensures Touched(rules, i) <==> Touched(rules[..|rules| - 1], i) || Covers(rules[|rules| - 1].field, i)
  {
    var front := rules[..|rules| - 1];
    if Touched(rules, i) && !Covers(rules[|rules| - 1].field, i) {
      var j :| 0 <= j < |rules| && Covers(rules[j].field, i);
      assert j < |front| && front[j] == rules[j];
    }
    if Touched(front, i) {
      var j :| 0 <= j < |front| && Covers(front[j].field, i);
      assert rules[j] == front[j];
    }
  }

  /** Byte `i` is covered by the code field or by some rule. */
  predicate Consumed(s: Schema, orig: seq<byte>, i: int)
    requires NodeOk(s, orig)
  {
    Covers(s.code, i) || Touched(RulesOf(s, orig), i)
  }

  /**
    * The completeness check: a node for which some nonzero byte is covered
    * neither by its code nor by any rule is reported as incomplete; and
    * when its rules all take whole fields, it is reported exactly when
    * such a byte exists.
    */
  lemma Completeness(s: Schema, orig: seq<byte>)
    requires NodeOk(s, orig)
    ensures (exists i :: 0 <= i < |orig| && orig[i] != 0 && !Consumed(s, orig, i)) ==> Incomplete(s, orig)
    ensures AllTakes(RulesOf(s, orig)) ==>
      (Incomplete(s, orig) <==> exists i :: 0 <= i < |orig| && orig[i] != 0 && !Consumed(s, orig, i))
  {
    var rules := RulesOf(s, orig);
    ClearedBytes(SweptAll(orig, orig, rules), s.code);
    forall i | 0 <= i < |orig|
      ensures !Consumed(s, orig, i) ==> Residue(s, orig)[i] == orig[i]
      ensures AllTakes(rules) && Consumed(s, orig, i) ==> Residue(s, orig)[i] == 0
    {
      SweptAllBytes(orig, orig, rules, i);
    }
  }

  /** The flag `dump_tree` raises is the node's own incompleteness, whatever was written before it. */
  lemma TreeIncomplete(k: Sink, s: Schema, g: Graph, t: Ref)
    requires GraphOk(s, g) && (t == Null || t in g)
    ensures TreeSpec(k, s, g, t).1 <==> t != Null && Incomplete(s, g[t])
  {
  }

  // What dumping interns.

  /** The reference a rule writes: a node value whose element is written; none for any other rule. */
  function RuleRefs(orig: seq<byte>, r: Rule): seq<Ref>
    requires Admissible(orig, r)
  {
    if r.Value? && r.shown == AsNode && Written(r.presence, Get(orig, r.field)) then [Get(orig, r.field)] else []
  }

  /** The references the rules of a node write, in order. */
  function RefsWritten(orig: seq<byte>, rules: seq<Rule>): seq<Ref>
    requires Fits(orig, rules)
    decreases |rules|
  {
    if rules == [] then [] else RefsWritten(orig, rules[..|rules| - 1]) + RuleRefs(orig, rules[|rules| - 1])
  }

  /** The references `dump_tree(t)` interns, in order: `t` itself, then the ones its rules write. */
  function NodeRefs(s: Schema, g: Graph, t: Ref): seq<Ref>
    requires GraphOk(s, g) && (t == Null || t in g)
  {
    if t == Null then [Null] else [t] + RefsWritten(g[t], RulesOf(s, g[t]))
  }

  /** A rule interns what it writes and nothing else. */
  lemma StepRefs(k: Sink, orig: seq<byte>, shadow: seq<byte>, r: Rule)
    requires |orig| == |shadow| && Admissible(orig, r)
    ensures Step(k, orig, shadow, r).0.tb == InternEach(k.tb, RuleRefs(orig, r))
  {
    if r.Value? && r.shown == AsNode && Written(r.presence, Get(orig, r.field)) {
      assert [Get(orig, r.field)][..0] == [];
    }
  }

  /** The rules of a node intern what they write, in order. */
  lemma {:induction false} StepsRefs(k: Sink, orig: seq<byte>, shadow: seq<byte>, rules: seq<Rule>)
    requires |orig| == |shadow| && Fits(orig, rules)
    ensures Steps(k, orig, shadow, rules).0.tb == InternEach(k.tb, RefsWritten(orig, rules))
    decreases |rules|
  {
    if rules != [] {
      var front := rules[..|rules| - 1];
      var r := rules[|rules| - 1];
      var (k1, s1) := Steps(k, orig, shadow, front);
      StepsRefs(k, orig, shadow, front);
      StepRefs(k1, orig, s1, r);
      InternEachAppend(k.tb, RefsWritten(orig, front), RuleRefs(orig, r));
    }
  }

  /** `dump_tree(t)` interns `t`, then what the node's rules write. */
  lemma TreeRefs(k: Sink, s: Schema, g: Graph, t: Ref)
    requires GraphOk(s, g) && (t == Null || t in g)
    ensures TreeSpec(k, s, g, t).0.tb == InternEach(k.tb, NodeRefs(s, g, t))
  {
    if t == Null {
      assert [Null][..0] == [];
    } else {
      var orig := g[t];
      var k0 := OpenWithRef(k, "tree", "id", t);
      var k1 := ElementText(k0, "code", s.kinds[Get(orig, s.code)].name);
      assert k0.tb == InternEach(k.tb, [t]) by {
        assert [t][..0] == [];
      }
      StepsRefs(k1, orig, orig, RulesOf(s, orig));
      InternEachAppend(k.tb, [t], RefsWritten(orig, RulesOf(s, orig)));
    }
  }

  // The worklist.

  /** Every entry of `refs` is null or a node of the graph. */
  predicate InGraph(g: Graph, refs: seq<Ref>) {
    forall j :: 0 <= j < |refs| ==> refs[j] == Null || refs[j] in g
  }

  /** The graph is closed under the references its nodes write. */
  predicate Closed(s: Schema, g: Graph)
    requires GraphOk(s, g)
  {
    forall t :: t in g ==> InGraph(g, RefsWritten(g[t], RulesOf(s, g[t])))
  }

  /** The interner holds only null and nodes of the graph. */
  predicate Bounded(tb: Table, g: Graph) {
    Consistent(tb) && forall u :: u in tb.ids ==> u == Null || u in g
  }

  /** So the list never outgrows the graph, which bounds the loop of `dump_all`. */
  lemma BoundedSize(tb: Table, g: Graph)
    requires Bounded(tb, g)
    ensures |tb.list| <= |g| + 1
  {
    assert tb.ids.Keys <= g.Keys + {Null};
    SubsetSize(tb.ids.Keys, g.Keys + {Null});
    assert |tb.ids.Keys| == |tb.ids|;
  }

  lemma {:induction false} SubsetSize(a: set<Ref>, b: set<Ref>)
    requires a <= b
    ensures |a| <= |b|
    decreases |a|
  {
    if a != {} {
      var x :| x in a;
      SubsetSize(a - {x}, b - {x});
    }
  }

  /** The non-null entries of `refs` that are incomplete. */
  function CountIncomplete(s: Schema, g: Graph, refs: seq<Ref>): nat
    requires GraphOk(s, g) && InGraph(g, refs)
    decreases |refs|
  {
    if refs == [] then 0
    else
      var t := refs[|refs| - 1];
      CountIncomplete(s, g, refs[..|refs| - 1]) + if t != Null && Incomplete(s, g[t]) then 1 else 0
  }

  /** `dump_tree` on each entry of `refs` in turn. */
  function DumpEach(k: Sink, s: Schema, g: Graph, refs: seq<Ref>): (r: Sink)
    requires GraphOk(s, g) && InGraph(g, refs)
    ensures r.w.indent == k.w.indent
    decreases |refs|
  {
    if refs == [] then k
    else TreeSpec(DumpEach(k, s, g, refs[..|refs| - 1]), s, g, refs[|refs| - 1]).0
  }

  /** The references `dump_tree` interns on each entry of `refs` in turn. */
  function DumpedRefs(s: Schema, g: Graph, refs: seq<Ref>): seq<Ref>
    requires GraphOk(s, g) && InGraph(g, refs)
    decreases |refs|
  {
    if refs == [] then [] else DumpedRefs(s, g, refs[..|refs| - 1]) + NodeRefs(s, g, refs[|refs| - 1])
  }

  /** Dumping one more entry extends the output, the count and the interned references of the ones before it. */
  lemma DumpEachSnoc(k: Sink, s: Schema, g: Graph, refs: seq<Ref>, t: Ref)
    requires GraphOk(s, g) && InGraph(g, refs) && (t == Null || t in g)
    ensures InGraph(g, refs + [t])
    ensures DumpEach(k, s, g, refs + [t]) == TreeSpec(DumpEach(k, s, g, refs), s, g, t).0
    ensures CountIncomplete(s, g, refs + [t]) == CountIncomplete(s, g, refs) + if t != Null && Incomplete(s, g[t]) then 1 else 0
    ensures DumpedRefs(s, g, refs + [t]) == DumpedRefs(s, g, refs) + NodeRefs(s, g, t)
  {
    assert (refs + [t])[..|refs|] == refs;
  }

  /** Dumping the entries of `refs` interns exactly the references they write, in order. */
  lemma {:induction false} DumpEachRefs(k: Sink, s: Schema, g: Graph, refs: seq<Ref>)
    requires GraphOk(s, g) && InGraph(g, refs)
    ensures DumpEach(k, s, g, refs).tb == InternEach(k.tb, DumpedRefs(s, g, refs))
    decreases |refs|
  {
    if refs != [] {
      var front, t := refs[..|refs| - 1], refs[|refs| - 1];
      DumpEachRefs(k, s, g, front);
      TreeRefs(DumpEach(k, s, g, front), s, g, t);
      InternEachAppend(k.tb, DumpedRefs(s, g, front), NodeRefs(s, g, t));
    }
  }

  /** In a closed graph, what dumping one entry interns lies in the graph, starting with the entry itself. */
  lemma NodeRefsCover(s: Schema, g: Graph, t: Ref)
    requires GraphOk(s, g) && Closed(s, g) && (t == Null || t in g)
    ensures InGraph(g, NodeRefs(s, g, t)) && t in NodeRefs(s, g, t)
    ensures t != Null ==> forall v :: v in RefsWritten(g[t], RulesOf(s, g[t])) ==> v in NodeRefs(s, g, t)
  {
    var added := NodeRefs(s, g, t);
    assert added[0] == t;
    if t != Null {
      var written := RefsWritten(g[t], RulesOf(s, g[t]));
      assert InGraph(g, written);
      forall j | 0 <= j < |added|
        ensures added[j] == Null || added[j] in g
      {
        if j > 0 {
          assert added[j] == written[j - 1];
        }
      }
    }
  }

  lemma InGraphAppend(g: Graph, a: seq<Ref>, b: seq<Ref>)
    requires InGraph(g, a) && InGraph(g, b)
    ensures InGraph(g, a + b)
  {
    forall j | 0 <= j < |a + b|
      ensures (a + b)[j] == Null || (a + b)[j] in g
    {
      if j >= |a| {
        assert (a + b)[j] == b[j - |a|];
      }
    }
  }

  /**
    * In a closed graph, the references dumping `refs` interns are null or
    * nodes of the graph; they include every entry of `refs` and every
    * reference a dumped node writes.
    */
  lemma {:induction false} DumpedRefsCover(s: Schema, g: Graph, refs: seq<Ref>)
    requires GraphOk(s, g) && Closed(s, g) && InGraph(g, refs)
    ensures InGraph(g, DumpedRefs(s, g, refs))
    ensures forall u :: u in refs ==> u in DumpedRefs(s, g, refs)
    ensures forall u, v :: u in refs && u in g && v in RefsWritten(g[u], RulesOf(s, g[u])) ==> v in DumpedRefs(s, g, refs)
    decreases |refs|
  {
    if refs != [] {
      var front, t := refs[..|refs| - 1], refs[|refs| - 1];
      assert refs == front + [t];
      assert InGraph(g, front) && (t == Null || t in g);
      DumpedRefsCover(s, g, front);
      var before, added := DumpedRefs(s, g, front), NodeRefs(s, g, t);
      assert DumpedRefs(s, g, refs) == before + added;
      NodeRefsCover(s, g, t);
      InGraphAppend(g, before, added);
      forall u, v | u in refs && u in g && v in RefsWritten(g[u], RulesOf(s, g[u]))
        ensures v in before + added
      {
        if u == t {
          assert v in added;
        } else {
          assert u in front;
        }
      }
    }
  }

  /**
    * Dumping the entries of `refs` of a closed graph keeps the interner
    * bounded by the graph and keeps every entry it had; afterwards every
    * entry of `refs` and every reference a dumped node writes is interned.
    */
  lemma DumpEachTable(k: Sink, s: Schema, g: Graph, refs: seq<Ref>)
    requires GraphOk(s, g) && Closed(s, g) && Bounded(k.tb, g) && InGraph(g, refs)
    ensures var tb := DumpEach(k, s, g, refs).tb;
      && Bounded(tb, g) && k.tb.list <= tb.list
      && (forall u :: u in refs ==> u in tb.ids)
      && forall u, v :: u in refs && u in g && v in RefsWritten(g[u], RulesOf(s, g[u])) ==> v in tb.ids
  {
    DumpEachRefs(k, s, g, refs);
    DumpedRefsCover(s, g, refs);
    var refs' := DumpedRefs(s, g, refs);
    InternEachGrows(k.tb, refs');
    var tb := InternEach(k.tb, refs');
    forall u | u in tb.ids
      ensures u == Null || u in g
    {
      if u !in k.tb.ids {
        var j :| 0 <= j < |refs'| && refs'[j] == u;
      }
    }
  }

  // The dumper.

  /** A writer an element can be started on: valid, and not inside an attribute. */
  predicate Ready(w: Writer) {
    Valid(w) && !w.inAttribute
  }

  /** The names the dumper writes are printable, as `emit_string` of a tag name demands. */
  predicate NamesPrintable(s: Schema) {
    forall c :: c in s.kinds ==>
      && AllPrintable(s.kinds[c].name)
      && forall j :: 0 <= j < |s.kinds[c].rules| ==> AllPrintable(s.kinds[c].rules[j].name)
  }

  /** A reference is written like a number: the scopes stay as they were. */
  lemma ReadyTreeRef(k: Sink, t: Ref)
    ensures TreeRef(k, t).w.inAttribute == k.w.inAttribute && TreeRef(k, t).w.indent == k.w.indent
    ensures Valid(k.w) ==> Valid(TreeRef(k, t).w)
  {
    WriteKeepsScopes(k.w, "@", 0);
    WriteKeepsScopes(Str(k.w, "@"), "", Insert(k.tb, t).1);
  }

  /** Each element helper leaves a ready writer ready, at the same depth. */
  lemma ReadyMarker(k: Sink, name: string, key: string, t: Ref)
    requires Ready(k.w)
    ensures Ready(Marker(k, name).w) && Marker(k, name).w.indent == k.w.indent
    ensures Ready(MarkerRef(k, name, key, t).w) && MarkerRef(k, name, key, t).w.indent == k.w.indent
  {
    var o := Open(k, name);
    TagScopes(k.w, name);
    TagScopes(o.w, name);
    TagScopes(o.w, key);
    var a := OpenA(o, key);
    ReadyTreeRef(a, t);
    TagScopes(TreeRef(a, t).w, name);
    var c := CloseA(TreeRef(a, t));
    TagScopes(c.w, name);
  }

  lemma ReadyElement(k: Sink, name: string, v: nat, t: Ref, text: string)
    requires Ready(k.w)
    ensures Ready(ElementNat(k, name, v).w) && ElementNat(k, name, v).w.indent == k.w.indent
    ensures Ready(ElementRef(k, name, t).w) && ElementRef(k, name, t).w.indent == k.w.indent
    ensures Ready(ElementText(k, name, text).w) && ElementText(k, name, text).w.indent == k.w.indent
  {
    var o := Open(k, name);
    TagScopes(k.w, name);
    WriteKeepsScopes(o.w, text, v);
    ReadyTreeRef(o, t);
    TagScopes(Unsigned(o, v).w, name);
    TagScopes(TreeRef(o, t).w, name);
    TagScopes(Chars(o, text).w, name);
  }

  lemma ReadyOpenWithRef(k: Sink, name: string, key: string, t: Ref)
    requires Ready(k.w)
    ensures Ready(OpenWithRef(k, name, key, t).w) && OpenWithRef(k, name, key, t).w.indent == k.w.indent + 1
  {
    var o := Open(k, name);
    TagScopes(k.w, name);
    TagScopes(o.w, key);
    var a := OpenA(o, key);
    ReadyTreeRef(a, t);
    TagScopes(TreeRef(a, t).w, name);
  }

  lemma ReadyClose(k: Sink, name: string)
    requires Ready(k.w) && k.w.indent > 0
    ensures Ready(Close(k, name).w) && Close(k, name).w.indent == k.w.indent - 1
  {
    TagScopes(k.w, name);
  }

  lemma ReadyStep(k: Sink, orig: seq<byte>, shadow: seq<byte>, r: Rule)
    requires |orig| == |shadow| && Admissible(orig, r) && Ready(k.w)
    ensures Ready(Step(k, orig, shadow, r).0.w)
  {
    match r
    case Value(name, f, _, _, _) =>
      ReadyElement(k, name, Taken(orig, shadow, r), Taken(orig, shadow, r), "");
    case Bit(name, _, _) =>
      ReadyMarker(k, name, "", Null);
    case Flag(name, _, _) =>
      ReadyMarker(k, name, "", Null);
  }

  lemma {:induction false} ReadySteps(k: Sink, orig: seq<byte>, shadow: seq<byte>, rules: seq<Rule>)
    requires |orig| == |shadow| && Fits(orig, rules) && Ready(k.w)
    ensures Ready(Steps(k, orig, shadow, rules).0.w)
    decreases |rules|
  {
    if rules != [] {
      var front := rules[..|rules| - 1];
      ReadySteps(k, orig, shadow, front);
      var (k1, s1) := Steps(k, orig, shadow, front);
      ReadyStep(k1, orig, s1, rules[|rules| - 1]);
    }
  }

  lemma ReadyTree(k: Sink, s: Schema, g: Graph, t: Ref)
    requires GraphOk(s, g) && (t == Null || t in g) && Ready(k.w)
    ensures Ready(TreeSpec(k, s, g, t).0.w)
  {
    if t == Null {
      ReadyMarker(k, "tree", "id", t);
    } else {
      var orig := g[t];
      var k0 := OpenWithRef(k, "tree", "id", t);
      ReadyOpenWithRef(k, "tree", "id", t);
      var k1 := ElementText(k0, "code", s.kinds[Get(orig, s.code)].name);
      ReadyElement(k0, "code", 0, Null, s.kinds[Get(orig, s.code)].name);
      ReadySteps(k1, orig, orig, RulesOf(s, orig));
      var (k2, shadow) := Steps(k1, orig, orig, RulesOf(s, orig));
      var residue := Cleared(shadow, s.code);
      if !AllZero(residue) {
        var k3 := Open(k2, "remaining");
        TagScopes(k2.w, "remaining");
        ReadyClose(k3.(w := Hex(k3.w, residue)), "remaining");
      }
      ReadyClose(Finish(k2, s, shadow).0, "tree");
    }
  }

  lemma {:induction false} ReadyDumpEach(k: Sink, s: Schema, g: Graph, refs: seq<Ref>)
    requires GraphOk(s, g) && InGraph(g, refs) && Ready(k.w)
    ensures Ready(DumpEach(k, s, g, refs).w)
    decreases |refs|
  {
    if refs != [] {
      ReadyDumpEach(k, s, g, refs[..|refs| - 1]);
      ReadyTree(DumpEach(k, s, g, refs[..|refs| - 1]), s, g, refs[|refs| - 1]);
    }
  }

  /** `dump_tree(t)` only appends to the interner's list. */
  lemma TreeGrows(k: Sink, s: Schema, g: Graph, t: Ref)
    requires GraphOk(s, g) && (t == Null || t in g) && Consistent(k.tb)
    ensures k.tb.list <= TreeSpec(k, s, g, t).0.tb.list
  {
    TreeRefs(k, s, g, t);
    InternEachGrows(k.tb, NodeRefs(s, g, t));
  }

  /** A list that only grew still starts with what it held. */
  lemma PrefixSnoc(a: seq<Ref>, b: seq<Ref>, i: nat)
    requires a <= b && i < |a|
    ensures b[..i + 1] == a[..i] + [a[i]]
  {
    assert b[..|a|] == a;
    assert b[..i + 1] == a[..i + 1];
  }

  /** One more round of the loop of `dump_all`, on the entries `refs` dumped so far and the next one, `t`. */
  lemma DumpNext(k: Sink, s: Schema, g: Graph, refs: seq<Ref>, t: Ref)
    requires GraphOk(s, g) && Closed(s, g) && Bounded(k.tb, g) && InGraph(g, refs) && (t == Null || t in g)
    requires Ready(k.w)
    ensures InGraph(g, refs + [t])
    ensures DumpEach(k, s, g, refs + [t]) == TreeSpec(DumpEach(k, s, g, refs), s, g, t).0
    ensures CountIncomplete(s, g, refs + [t]) == CountIncomplete(s, g, refs) + if t != Null && Incomplete(s, g[t]) then 1 else 0
    ensures var tb := DumpEach(k, s, g, refs + [t]).tb;
      && DumpEach(k, s, g, refs).tb.list <= tb.list && k.tb.list <= tb.list && Bounded(tb, g)
    ensures Ready(DumpEach(k, s, g, refs).w)
  {
    DumpEachSnoc(k, s, g, refs, t);
    DumpEachTable(k, s, g, refs);
    DumpEachTable(k, s, g, refs + [t]);
    TreeGrows(DumpEach(k, s, g, refs), s, g, t);
    ReadyDumpEach(k, s, g, refs);
  }

  /**
    * Once the loop has dumped every entry of the list it grew, every
    * reference a dumped node writes is in that list.
    */
  lemma DumpClosed(k: Sink, s: Schema, g: Graph, list: seq<Ref>)
    requires GraphOk(s, g) && Closed(s, g) && Bounded(k.tb, g) && InGraph(g, list)
    requires DumpEach(k, s, g, list).tb.list == list
    ensures forall u, v :: u in list && u in g && v in RefsWritten(g[u], RulesOf(s, g[u])) ==> v in list
  {
    DumpEachTable(k, s, g, list);
    ListClosed(DumpEach(k, s, g, list).tb, s, g);
  }

  /** A table whose list holds every reference its own entries write. */
  lemma ListClosed(tb: Table, s: Schema, g: Graph)
    requires GraphOk(s, g) && Consistent(tb)
    requires forall u, v :: u in tb.list && u in g && v in RefsWritten(g[u], RulesOf(s, g[u])) ==> v in tb.ids
    ensures forall u, v :: u in tb.list && u in g && v in RefsWritten(g[u], RulesOf(s, g[u])) ==> v in tb.list
  {
    forall u, v | u in tb.list && u in g && v in RefsWritten(g[u], RulesOf(s, g[u]))
      ensures v in tb.list
    {
      FreshId(tb, v);
    }
  }


  /**
    * The operand-name table of an expression node before the
    * `CALC_OPERAND_NAME` calls: every slot empty, except that the first
    * operand of a variable-length expression is its operand count.
    */
  function OperandSlots(len: nat, variable: bool): (slots: seq<Option<string>>)
    requires variable ==> len > 0
    ensures |slots| == len
    ensures forall i :: 0 <= i < len ==> slots[i] == if variable && i == 0 then Some("vl-operand-count") else None
  {
    var empty := seq(len, _ => None);
    if variable then empty[0 := Some("vl-operand-count")] else empty
  }

  /** `operand_names` as the dumper allocates it: zeroed, then the count slot named. */
  method NewOperandNames(len: nat, variable: bool) returns (names: array<Option<string>>)
    requires variable ==> len > 0
    ensures fresh(names) && names[..] == OperandSlots(len, variable)
  {
    names := new Option<string>[len](_ => None);
    if variable {
      names[0] := Some("vl-operand-count");
    }
  }

  /** The name an operand's element gets: its slot's name, or `operand` when the slot is empty. */
  function OperandName(names: seq<Option<string>>, i: nat): string
    requires i < |names|
  {
    if names[i].Some? then names[i].value else "operand"
  }

  /**
    * `CALC_OPERAND_NAME` is `NAME` on the operand table: a run of them
    * passes its assertions exactly when each index is an operand not yet
    * named, none twice and never the count of a variable-length
    * expression; then each operand is called by the name given to it,
    * the count by its own name, and every other operand `operand`.
    */
  lemma OperandNames(len: nat, variable: bool, entries: seq<(int, string)>)
    requires variable ==> len > 0
    ensures var slots := OperandSlots(len, variable);
      Names.Fill(slots, entries).Some? <==> Names.Targets(slots, entries) && Names.DistinctIndices(entries)
    ensures var filled := Names.Fill(OperandSlots(len, variable), entries);
      filled.Some? ==>
        && |filled.value| == len
        && forall i :: 0 <= i < len ==>
             OperandName(filled.value, i)
               == if Names.Named(entries, i).Some? then Names.Named(entries, i).value
                  else if variable && i == 0 then "vl-operand-count"
                  else "operand"
  {
    Names.FillWriteOnce(OperandSlots(len, variable), entries);
  }

  /**
    * The dumper's state: the XML output, the interner, and the number of
    * incomplete dumps so far (`incomplete_dumps`).
    */
  class Dumper {
    const out: XmlOutput
    const interner: Interner
    var incomplete: nat

    /** The output and the interner as one value. */
    function Current(): Sink
      reads out, interner
    {
      Sink(out.State(), interner.Contents())
    }

    constructor (o: XmlOutput, i: Interner)
      ensures out == o && interner == i && incomplete == 0
    {
      out := o;
      interner := i;
      incomplete := 0;
    }

    /** `xemit` of a node: `@`, then the id `intern` gives it. */
    method EmitTree(t: Ref)
      requires Valid(out.State())
      modifies out, interner
      ensures Current() == TreeRef(old(Current()), t)
    {
      WriteKeepsScopes(out.State(), "@", 0);
      out.EmitString("@");
      var id := interner.Intern(t);
      out.EmitNat(id);
    }

    /** `xml0(tag)`. */
    method Xml0(name: string)
      requires Ready(out.State()) && AllPrintable(name)
      modifies out
      ensures Current() == Marker(old(Current()), name)
    {
      TagScopes(out.State(), name);
      var tag := new XmlTag(out, name);
      tag.Close();
    }

    /** `xml0(tag, k, v)` for a node `v`. */
    method Xml0Ref(name: string, key: string, t: Ref)
      requires Ready(out.State()) && AllPrintable(name) && AllPrintable(key)
      modifies out, interner
      ensures Current() == MarkerRef(old(Current()), name, key, t)
    {
      var tag := OpenRef(name, key, t);
      ClosePlain(tag);
    }

    /** `xml1(tag, v)` for an unsigned `v`. */
    method Xml1Nat(name: string, v: nat)
      requires Ready(out.State()) && AllPrintable(name)
      modifies out
      ensures Current() == ElementNat(old(Current()), name, v)
    {
      TagScopes(out.State(), name);
      var tag := new XmlTag(out, name);
      WriteKeepsScopes(out.State(), "", v);
      out.EmitNat(v);
      tag.Close();
    }

    /** `xml1(tag, v)` for a node `v`. */
    method Xml1Ref(name: string, t: Ref)
      requires Ready(out.State()) && AllPrintable(name)
      modifies out, interner
      ensures Current() == ElementRef(old(Current()), name, t)
    {
      TagScopes(out.State(), name);
      var tag := new XmlTag(out, name);
      EmitTree(t);
      ReadyTreeRef(Current(), t);
      tag.Close();
    }

    /** `xml1(tag, s)` for a string `s`. */
    method Xml1Text(name: string, text: string)
      requires Ready(out.State()) && AllPrintable(name) && AllPrintable(text)
      modifies out
      ensures Current() == ElementText(old(Current()), name, text)
    {
      TagScopes(out.State(), name);
      var tag := new XmlTag(out, name);
      WriteKeepsScopes(out.State(), text, 0);
      out.EmitString(text);
      tag.Close();
    }

    /** `Xml(tag, k, v)` for a node `v`: the element stays open until `tag` closes. */
    method OpenRef(name: string, key: string, t: Ref) returns (tag: XmlTag)
      requires Ready(out.State()) && AllPrintable(name) && AllPrintable(key)
      modifies out, interner
      ensures fresh(tag) && tag.out == out && tag.tag == name
      ensures Current() == OpenWithRef(old(Current()), name, key, t)
      ensures Ready(out.State()) && out.currentIndent == old(out.currentIndent) + 1
    {
      ReadyOpenWithRef(Current(), name, key, t);
      TagScopes(out.State(), name);
      tag := new XmlTag(out, name);
      TagScopes(out.State(), key);
      var attr := new XmlAttr(out, key);
      EmitTree(t);
      ReadyTreeRef(Current(), t);
      attr.Close();
    }

    /** `Xml(tag)`: the element stays open until `tag` closes. */
    method OpenPlain(name: string) returns (tag: XmlTag)
      requires Ready(out.State()) && AllPrintable(name)
      modifies out
      ensures fresh(tag) && tag.out == out && tag.tag == name
      ensures Current() == Open(old(Current()), name) && Ready(out.State())
    {
      TagScopes(out.State(), name);
      tag := new XmlTag(out, name);
    }

    /** The end of the scope of `tag`: its closing tag. */
    method ClosePlain(tag: XmlTag)
      requires tag.out == out && AllPrintable(tag.tag)
      requires Ready(out.State()) && out.currentIndent > 0
      modifies out
      ensures Current() == Close(old(Current()), tag.tag)
    {
      tag.Close();
    }

    /** `dump_remaining`: a `remaining` element around the hex dump of the shadow. */
    method DumpRemaining(mask: array<byte>)
      requires Ready(out.State())
      modifies out
      ensures Current() == Remaining(old(Current()), mask[..])
      ensures Ready(out.State())
    {
      ghost var k0 := Current();
      TagScopes(out.State(), "remaining");
      var tag := new XmlTag(out, "remaining");
      ghost var k1 := Current();
      assert k1 == Open(k0, "remaining");
      XEmitHex(out, mask[..]);
      assert Current() == k1.(w := Hex(k1.w, mask[..]));
      TagScopes(out.State(), "remaining");
      tag.Close();
    }

    /** One `DO_*`, `CDO_*`, `DO_BIT` or `DO_FLAG` line on the node `orig` and its shadow `mask`. */
    method ApplyRule(mask: array<byte>, orig: seq<byte>, r: Rule)
      requires Ready(out.State()) && mask.Length == |orig| && Admissible(orig, r) && AllPrintable(r.name)
      modifies out, interner, mask
      ensures (Current(), mask[..]) == Step(old(Current()), orig, old(mask[..]), r)
    {
      match r
      case Value(name, f, from, presence, shown) =>
        var v;
        if from == Original {
          v := Take(mask, orig, f);
        } else {
          v := TakeShadow(mask, f);
        }
        if presence == Always || v != 0 {
          if shown == AsNumber {
            Xml1Nat(name, v);
          } else {
            Xml1Ref(name, v);
          }
        }
      case Bit(name, f, m) =>
        var v := TakeBits(mask, orig, f, m);
        if v != 0 {
          Xml0(name);
        }
      case Flag(name, f, m) =>
        var flagged := TakeFlag(mask, f, m);
        if flagged {
          Xml0(name);
        }
    }

    /** The rules of a node, in order, against its shadow. */
    method ApplyRules(mask: array<byte>, orig: seq<byte>, rules: seq<Rule>)
      requires Ready(out.State()) && mask.Length == |orig| && Fits(orig, rules)
      requires forall j :: 0 <= j < |rules| ==> AllPrintable(rules[j].name)
      modifies out, interner, mask
      ensures (Current(), mask[..]) == Steps(old(Current()), orig, old(mask[..]), rules)
      ensures Ready(out.State())
    {
      ghost var k, shadow := Current(), mask[..];
      var i := 0;
      while i < |rules|
        invariant i <= |rules|
        invariant (Current(), mask[..]) == Steps(k, orig, shadow, rules[..i])
        invariant Ready(out.State())
      {
        assert rules[..i + 1][..i] == rules[..i];
        ReadyStep(Current(), orig, mask[..], rules[i]);
        ApplyRule(mask, orig, rules[i]);
        i := i + 1;
      }
      assert rules[..i] == rules;
    }

    /**
      * The end of `dump_tree`: clear the code in the shadow, and when
      * something is left, dump it and count the node as incomplete.
      */
    method CheckRemaining(s: Schema, mask: array<byte>)
      requires Ready(out.State()) && Within(s.code, mask.Length)
      modifies out, mask, this
      ensures var (k, flagged) := Finish(old(Current()), s, old(mask[..]));
        Current() == k && incomplete == old(incomplete) + if flagged then 1 else 0
      ensures Ready(out.State())
    {
      Store(mask, s.code, 0);
      var zero := IsAllZero(mask, mask.Length);
      assert mask[..mask.Length] == mask[..];
      if !zero {
        DumpRemaining(mask);
        incomplete := incomplete + 1;
      }
    }

    /** The `code` element of a non-null node, then its rules against the shadow `mask`. */
    method DumpRules(s: Schema, orig: seq<byte>, mask: array<byte>)
      requires NodeOk(s, orig) && NamesPrintable(s) && Ready(out.State()) && mask[..] == orig
      modifies out, interner, mask
      ensures (Current(), mask[..]) == Steps(ElementText(old(Current()), "code", s.kinds[Get(orig, s.code)].name), orig, orig, RulesOf(s, orig))
      ensures Ready(out.State())
    {
      var kind := s.kinds[Get(orig, s.code)];
      ReadyElement(Current(), "code", 0, Null, kind.name);
      Xml1Text("code", kind.name);
      ApplyRules(mask, orig, kind.rules);
    }

    /** The contents of the element of a non-null node: its code, its rules, what they left. */
    method DumpContents(s: Schema, orig: seq<byte>)
      requires NodeOk(s, orig) && NamesPrintable(s) && Ready(out.State())
      modifies out, interner, this
      ensures Current() == Contents(old(Current()), s, orig).0
      ensures incomplete == old(incomplete) + if Incomplete(s, orig) then 1 else 0
      ensures Ready(out.State())
    {
      ghost var k := Current();
      var mask := new byte[|orig|](i requires 0 <= i < |orig| => orig[i]);
      assert mask[..] == orig;
      DumpRules(s, orig, mask);
      ghost var k2, shadow := Current(), mask[..];
      assert Contents(k, s, orig) == Finish(k2, s, shadow);
      assert Incomplete(s, orig) <==> Finish(k2, s, shadow).1;
      CheckRemaining(s, mask);
    }

    /** The element of a non-null node: opened with its id, closed after its contents. */
    method DumpNode(s: Schema, orig: seq<byte>, t: Ref)
      requires NodeOk(s, orig) && NamesPrintable(s) && Ready(out.State())
      modifies out, interner, this
      ensures Current() == Close(Contents(OpenWithRef(old(Current()), "tree", "id", t), s, orig).0, "tree")
      ensures incomplete == old(incomplete) + if Incomplete(s, orig) then 1 else 0
    {
      ghost var k := Current();
      var tag := OpenRef("tree", "id", t);
      ghost var k1 := Current();
      assert k1 == OpenWithRef(k, "tree", "id", t) && k1.w.indent > 0;
      DumpContents(s, orig);
      ghost var k2 := Current();
      assert k2 == Contents(k1, s, orig).0 && k2.w.indent == k1.w.indent;
      ClosePlain(tag);
    }

    /**
      * `dump_tree(t)`: the node's element, written rule by rule against a
      * shadow copy of its bytes; an incomplete node is counted.
      */
    method DumpTree(s: Schema, g: Graph, t: Ref)
      requires GraphOk(s, g) && NamesPrintable(s) && (t == Null || t in g) && Ready(out.State())
      modifies out, interner, this
      ensures Current() == TreeSpec(old(Current()), s, g, t).0
      ensures incomplete == old(incomplete) + if t != Null && Incomplete(s, g[t]) then 1 else 0
    {
      if t == Null {
        Xml0Ref("tree", "id", t);
      } else {
        DumpNode(s, g[t], t);
      }
    }

    /**
      * Where the loop of `dump_all` stands after its first `i` entries,
      * starting from the sink `k1` and the count `inc0`: those entries are
      * dumped, in order, and counted; the interner kept its old prefix and
      * holds only null and nodes of the graph.
      */
    ghost predicate Dumped(s: Schema, g: Graph, k1: Sink, inc0: nat, i: nat)
      reads this, out, interner
    {
      && GraphOk(s, g) && Bounded(k1.tb, g) && Ready(k1.w)
      && i <= |interner.list| && k1.tb.list <= interner.list && InGraph(g, interner.list[..i])
      && Current() == DumpEach(k1, s, g, interner.list[..i])
      && incomplete == inc0 + CountIncomplete(s, g, interner.list[..i])
      && Bounded(interner.Contents(), g) && Ready(out.State())
    }

    /**
      * One turn of the loop of `dump_all`: `dump_tree` on entry `i` of the
      * interner's list, which may append to the list but keeps its prefix.
      */
    method DumpEntry(s: Schema, g: Graph, ghost k1: Sink, ghost inc0: nat, i: nat)
      requires Dumped(s, g, k1, inc0, i) && Closed(s, g) && NamesPrintable(s) && i < |interner.list|
      modifies out, interner, this
      ensures old(interner.list) <= interner.list && Dumped(s, g, k1, inc0, i + 1) && i < |g| + 1
    {
      BoundedSize(interner.Contents(), g);
      ghost var before := interner.list;
      var t := interner.list[i];
      assert t in interner.ids;
      DumpNext(k1, s, g, before[..i], t);
      DumpTree(s, g, t);
      assert Current() == DumpEach(k1, s, g, before[..i] + [t]);
      PrefixSnoc(before, interner.list, i);
      ReadyDumpEach(k1, s, g, before[..i] + [t]);
    }

    /**
      * The loop of `dump_all`: `dump_tree` on each entry of the interner's
      * list, by index, while dumping appends to it. Every entry of the
      * final list is dumped once, in order, and the count of incomplete
      * dumps goes up by the incomplete nodes among them.
      */
    method DumpList(s: Schema, g: Graph)
      requires GraphOk(s, g) && Closed(s, g) && NamesPrintable(s)
      requires Ready(out.State()) && Bounded(interner.Contents(), g)
      modifies out, interner, this
      ensures old(interner.list) <= interner.list && InGraph(g, interner.list)
      ensures Current() == DumpEach(old(Current()), s, g, interner.list)
      ensures incomplete == old(incomplete) + CountIncomplete(s, g, interner.list)
      ensures forall u, v :: u in interner.list && u in g && v in RefsWritten(g[u], RulesOf(s, g[u])) ==> v in interner.list
      ensures Ready(out.State())
    {
      ghost var k1, inc0 := Current(), incomplete;
      var i := 0;
      assert interner.list[..0] == [];
      while i < |interner.list|
        invariant Dumped(s, g, k1, inc0, i)
        decreases |g| + 1 - i
      {
        DumpEntry(s, g, k1, inc0, i);
        i := i + 1;
      }
      AllDumped(s, g, k1, inc0, i);
    }

    /** Once the loop has reached the end of the list, the whole list is dumped. */
    lemma AllDumped(s: Schema, g: Graph, k1: Sink, inc0: nat, i: nat)
      requires Dumped(s, g, k1, inc0, i) && Closed(s, g) && i == |interner.list|
      ensures k1.tb.list <= interner.list && InGraph(g, interner.list)
      ensures Current() == DumpEach(k1, s, g, interner.list)
      ensures incomplete == inc0 + CountIncomplete(s, g, interner.list)
      ensures forall u, v :: u in interner.list && u in g && v in RefsWritten(g[u], RulesOf(s, g[u])) ==> v in interner.list
      ensures Ready(out.State())
    {
      assert interner.list[..i] == interner.list;
      DumpClosed(k1, s, g, interner.list);
    }

    /**
      * The `trees` element of `dump_all` and the warning after it: the
      * list's entries dumped inside the element; the dump is closed, each
      * reference a dumped node writes being itself in the list; and a
      * warning gives the count of incomplete dumps and the length of the
      * list when that count is not zero.
      */
    method DumpTrees(s: Schema, g: Graph) returns (warning: Option<(nat, nat)>)
      requires GraphOk(s, g) && Closed(s, g) && NamesPrintable(s)
      requires Ready(out.State()) && Bounded(interner.Contents(), g)
      modifies out, interner, this
      ensures old(interner.list) <= interner.list && InGraph(g, interner.list)
      ensures Current() == Close(DumpEach(Open(old(Current()), "trees"), s, g, interner.list), "trees")
      ensures incomplete == old(incomplete) + CountIncomplete(s, g, interner.list)
      ensures forall u, v :: u in interner.list && u in g && v in RefsWritten(g[u], RulesOf(s, g[u])) ==> v in interner.list
      ensures warning.None? <==> incomplete == 0
      ensures warning.Some? ==> warning.value.0 == incomplete && warning.value.1 == |interner.list|
    {
      ghost var k0 := Current();
      var tag := OpenPlain("trees");
      ghost var k1 := Current();
      assert k1 == Open(k0, "trees") && k1.w.indent > 0 && k1.tb == interner.Contents();
      DumpList(s, g);
      ghost var k2 := Current();
      assert k2 == DumpEach(k1, s, g, interner.list) && k2.w.indent == k1.w.indent;
      ClosePlain(tag);
      warning := IncompleteWarning();
    }

    /**
      * The warning after the `trees` element: the count of incomplete
      * dumps and the number of nodes dumped, when that count is not zero.
      */
    method IncompleteWarning() returns (warning: Option<(nat, nat)>)
      ensures warning.None? <==> incomplete == 0
      ensures warning.Some? ==> warning.value.0 == incomplete && warning.value.1 == |interner.list|
    {
      if incomplete != 0 {
        warning := Some((incomplete, |interner.list|));
      } else {
        warning := None;
      }
    }
  }
}
