/**
  * The shadow copy `dump_tree` keeps of the node it dumps: every field the
  * dumper consumes is zeroed in the copy, so whatever is still nonzero at
  * the end was not dumped.
  */
module Shadow {
  import opened Bytes

  /** A field of a node: `size` bytes at `offset`, least significant first. */
  datatype Field = Field(offset: nat, size: nat)

  predicate Within(f: Field, n: nat) {
    f.offset + f.size <= n
  }

  /** Two fields that share no byte. */
  predicate Disjoint(f: Field, g: Field) {
    f.offset + f.size <= g.offset || g.offset + g.size <= f.offset
  }

  predicate Covers(f: Field, i: int) {
    f.offset <= i < f.offset + f.size
  }

  /** The value a field holds. */
  function Get(s: seq<byte>, f: Field): nat
    requires Within(f, |s|)
  {
    LittleEndian(s[f.offset..f.offset + f.size])
  }

  /** The `n` bytes of `v`, least significant first, as a store of `v` into an `n`-byte field leaves them. */
  function Encode(v: nat, n: nat): (r: seq<byte>)
    ensures |r| == n
  {
    if n == 0 then [] else [(v % 256) as byte] + Encode(v / 256, n - 1)
  }

  /** Storing a value that fits and reading it back gives the value. */
  lemma {:induction false} EncodeRoundTrip(v: nat, n: nat)
    requires v < Pow256(n)
    ensures LittleEndian(Encode(v, n)) == v
  {
    if n > 0 {
      EncodeRoundTrip(v / 256, n - 1);
      var r := Encode(v, n);
      assert r[1..] == Encode(v / 256, n - 1);
    }
  }

  /** Storing zero is `memset` to zero. */
  lemma {:induction false} EncodeZero(n: nat)
    ensures Encode(0, n) == Zeros(n)
  {
    if n > 0 {
      EncodeZero(n - 1);
    }
  }

  /** `s` with the field `f` set to `v`. */
  function Put(s: seq<byte>, f: Field, v: nat): seq<byte>
    requires Within(f, |s|)
  {
    s[..f.offset] + Encode(v, f.size) + s[f.offset + f.size..]
  }

  /** `s` with the field `f` zeroed: what every take leaves in the shadow. */
  function Cleared(s: seq<byte>, f: Field): seq<byte>
    requires Within(f, |s|)
  {
    Put(s, f, 0)
  }

  /** Byte by byte: the field holds the encoded value, every other byte is as it was. */
  lemma PutBytes(s: seq<byte>, f: Field, v: nat)
    requires Within(f, |s|)
    ensures |Put(s, f, v)| == |s|
    ensures Put(s, f, v)[f.offset..f.offset + f.size] == Encode(v, f.size)
    ensures forall i :: 0 <= i < |s| && !Covers(f, i) ==> Put(s, f, v)[i] == s[i]
  {
    var r := Put(s, f, v);
    assert r[f.offset..f.offset + f.size] == Encode(v, f.size);
    forall i | 0 <= i < |s| && !Covers(f, i)
      ensures r[i] == s[i]
    {
      if i >= f.offset + f.size {
        assert r[i] == s[f.offset + f.size..][i - f.offset - f.size];
      }
    }
  }

  /** A stored value that fits reads back, and no other field changes. */
  lemma PutGet(s: seq<byte>, f: Field, v: nat, g: Field)
    requires Within(f, |s|) && Within(g, |s|) && v < Pow256(f.size)
    ensures Get(Put(s, f, v), f) == v
    ensures Disjoint(f, g) ==> Get(Put(s, f, v), g) == Get(s, g)
  {
    PutBytes(s, f, v);
    EncodeRoundTrip(v, f.size);
    if Disjoint(f, g) {
      var r := Put(s, f, v);
      assert r[g.offset..g.offset + g.size] == s[g.offset..g.offset + g.size] by {
        forall i | g.offset <= i < g.offset + g.size
          ensures r[i] == s[i]
        {
          assert !Covers(f, i);
        }
      }
    }
  }

  /** A take zeroes the field and leaves every other byte alone. */
  lemma ClearedBytes(s: seq<byte>, f: Field)
    requires Within(f, |s|)
    ensures |Cleared(s, f)| == |s|
    ensures forall i :: 0 <= i < |s| ==> Cleared(s, f)[i] == if Covers(f, i) then 0 else s[i]
  {
    PutBytes(s, f, 0);
    EncodeZero(f.size);
    var r := Cleared(s, f);
    forall i | 0 <= i < |s| && Covers(f, i)
      ensures r[i] == 0
    {
      assert r[i] == r[f.offset..f.offset + f.size][i - f.offset];
    }
  }

  /** Taking the same field twice leaves the same shadow as taking it once. */
  lemma ClearedTwice(s: seq<byte>, f: Field)
    requires Within(f, |s|)
    ensures Cleared(Cleared(s, f), f) == Cleared(s, f)
  {
    ClearedBytes(s, f);
    ClearedBytes(Cleared(s, f), f);
  }

  /** The shadow after taking every field of `fs` in order. */
  function ClearAll(s: seq<byte>, fs: seq<Field>): (r: seq<byte>)
    requires forall k :: 0 <= k < |fs| ==> Within(fs[k], |s|)
    ensures |r| == |s|
    decreases |fs|
  {
    if fs == [] then s
    else
      ClearedBytes(s, fs[0]);
      ClearAll(Cleared(s, fs[0]), fs[1..])
  }

  /** A byte survives the takes exactly when no taken field covers it. */
  lemma {:induction false} ClearAllBytes(s: seq<byte>, fs: seq<Field>, i: nat)
    requires forall k :: 0 <= k < |fs| ==> Within(fs[k], |s|)
    requires i < |s|
    ensures ClearAll(s, fs)[i] == if exists k :: 0 <= k < |fs| && Covers(fs[k], i) then 0 else s[i]
    decreases |fs|
  {
    if fs != [] {
      ClearedBytes(s, fs[0]);
      ClearAllBytes(Cleared(s, fs[0]), fs[1..], i);
      if exists k :: 0 <= k < |fs| && Covers(fs[k], i) {
        if !Covers(fs[0], i) {
          var k :| 0 <= k < |fs| && Covers(fs[k], i);
          assert Covers(fs[1..][k - 1], i);
        }
      } else {
        forall k | 0 <= k < |fs| - 1
          ensures !Covers(fs[1..][k], i)
        {
          assert fs[1..][k] == fs[k + 1];
        }
      }
    }
  }

  /**
    * The completeness check: after the takes the shadow is all zero exactly
    * when every nonzero byte of it was covered by some taken field.
    */
  lemma Completeness(s: seq<byte>, fs: seq<Field>)
    requires forall k :: 0 <= k < |fs| ==> Within(fs[k], |s|)
    ensures AllZero(ClearAll(s, fs)) <==>
      forall i :: 0 <= i < |s| && s[i] != 0 ==> exists k :: 0 <= k < |fs| && Covers(fs[k], i)
  {
    forall i | 0 <= i < |s|
      ensures ClearAll(s, fs)[i] == if exists k :: 0 <= k < |fs| && Covers(fs[k], i) then 0 else s[i]
    {
      ClearAllBytes(s, fs, i);
    }
  }

  /** A field is zero exactly when its bytes are, so taking it leaves it reading zero. */
  lemma ClearedReadsZero(s: seq<byte>, f: Field)
    requires Within(f, |s|)
    ensures Get(Cleared(s, f), f) == 0
  {
    PutGet(s, f, 0, f);
  }

  /**
    * `TAKE1`, `TAKE_I`, `TAKE2`: read the field from the original node and
    * zero it in the shadow.
    */
  method Take(mask: array<byte>, orig: seq<byte>, f: Field) returns (v: nat)
    requires |orig| == mask.Length && Within(f, mask.Length)
    modifies mask
    ensures v == Get(orig, f)
    ensures mask[..] == Cleared(old(mask[..]), f)
  {
    v := Get(orig, f);
    Store(mask, f, 0);
  }

  /** `TAKE0`: read the field from the shadow itself, then zero it there. */
  method TakeShadow(mask: array<byte>, f: Field) returns (v: nat)
    requires Within(f, mask.Length)
    modifies mask
    ensures v == Get(old(mask[..]), f)
    ensures mask[..] == Cleared(old(mask[..]), f)
  {
    v := Get(mask[..], f);
    Store(mask, f, 0);
  }

  /** `s` with the bit-field that the mask `m` selects in the word `f` zeroed, the other bits kept. */
  function ClearedBits(s: seq<byte>, f: Field, m: nat): seq<byte>
    requires Within(f, |s|)
  {
    Put(s, f, AndNot(Get(s, f), m))
  }

  /**
    * `TAKE1` and `TAKE2` of a bit-field: read it from the original node,
    * then assign zero to it in the shadow, which clears the bits of its
    * mask in the containing word and keeps the neighbouring bit-fields.
    */
  method TakeBits(mask: array<byte>, orig: seq<byte>, f: Field, m: nat) returns (v: nat)
    requires |orig| == mask.Length && Within(f, mask.Length) && m > 0
    modifies mask
    ensures v == Extract(Get(orig, f), m)
    ensures mask[..] == ClearedBits(old(mask[..]), f, m)
  {
    v := Extract(Get(orig, f), m);
    Store(mask, f, AndNot(Get(mask[..], f), m));
  }

  /**
    * Zeroing a bit-field leaves no bit of its mask in the word, keeps every
    * bit outside the mask, and changes no byte outside the word.
    */
  lemma BitsCleared(s: seq<byte>, f: Field, m: nat, k: nat, i: nat)
    requires Within(f, |s|) && i < |s|
    ensures And(Get(ClearedBits(s, f, m), f), m) == 0
    ensures And(k, m) == 0 ==> And(Get(ClearedBits(s, f, m), f), k) == And(Get(s, f), k)
    ensures !Covers(f, i) ==> ClearedBits(s, f, m)[i] == s[i]
  {
    var v := Get(s, f);
    LittleEndianBound(s[f.offset..f.offset + f.size]);
    AndNotAtMost(v, m);
    PutGet(s, f, AndNot(v, m), f);
    PutBytes(s, f, AndNot(v, m));
    AndNotClears(v, m);
    if And(k, m) == 0 {
      AndNotKeeps(v, m, k);
    }
  }

  /** An assignment to the field `f` of the shadow. */
  method Store(mask: array<byte>, f: Field, v: nat)
    requires Within(f, mask.Length)
    modifies mask
    ensures mask[..] == Put(old(mask[..]), f, v)
  {
    var bytes := Encode(v, f.size);
    ghost var before := mask[..];
    forall i | f.offset <= i < f.offset + f.size {
      mask[i] := bytes[i - f.offset];
    }
    assert mask[..] == Put(before, f, v) by {
      PutBytes(before, f, v);
      forall i | 0 <= i < mask.Length
        ensures mask[i] == Put(before, f, v)[i]
      {
        if Covers(f, i) {
          assert Put(before, f, v)[i] == Put(before, f, v)[f.offset..f.offset + f.size][i - f.offset];
        }
      }
    }
  }

  /**
    * `DO_FLAG` on a field of the shadow: when some bit of `m` is set, the
    * marker is due and those bits are cleared; otherwise nothing changes.
    */
  method TakeFlag(mask: array<byte>, f: Field, m: nat) returns (flagged: bool)
    requires Within(f, mask.Length)
    modifies mask
    ensures flagged <==> And(Get(old(mask[..]), f), m) != 0
    ensures mask[..] == if flagged then Put(old(mask[..]), f, AndNot(Get(old(mask[..]), f), m)) else old(mask[..])
  {
    var v := Get(mask[..], f);
    flagged := And(v, m) != 0;
    if flagged {
      Store(mask, f, AndNot(v, m));
    }
  }

  /** After `DO_FLAG` the field holds no bit of the mask, and every bit outside it is kept. */
  lemma FlagClears(s: seq<byte>, f: Field, m: nat, k: nat)
    requires Within(f, |s|)
    ensures var v := Get(s, f);
      var r := if And(v, m) != 0 then Put(s, f, AndNot(v, m)) else s;
      && And(Get(r, f), m) == 0
      && (And(k, m) == 0 ==> And(Get(r, f), k) == And(v, k))
  {
    var v := Get(s, f);
    LittleEndianBound(s[f.offset..f.offset + f.size]);
    if And(v, m) != 0 {
      AndNotAtMost(v, m);
      PutGet(s, f, AndNot(v, m), f);
      AndNotClears(v, m);
      if And(k, m) == 0 {
        AndNotKeeps(v, m, k);
      }
    }
  }
}
