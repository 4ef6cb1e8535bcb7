/**
  * The tree interner of `intern.cpp`: a map from node reference to id and
  * the list of interned references in id order. The null reference is
  * interned at id 0 from the start; every other reference gets the next id
  * the first time it is seen.
  */
module Intern {
  /** A node reference: its address, 0 being `NULL_TREE`. */
  type Ref = nat

  const Null: Ref := 0

  /** `interned_tree_list` and `interned_tree_ids` as one value. */
  datatype Table = Table(list: seq<Ref>, ids: map<Ref, nat>)

  /** The two globals as initialised: null at id 0 in both. */
  function Initial(): Table {
    Table([Null], map[Null := 0])
  }

  /** The list and the map describe the same bijection between references and `0..n-1`. */
  predicate Linked(tb: Table) {
    && |tb.list| == |tb.ids|
    && (forall t :: t in tb.ids ==> tb.ids[t] < |tb.list| && tb.list[tb.ids[t]] == t)
    && (forall i :: 0 <= i < |tb.list| ==> tb.list[i] in tb.ids && tb.ids[tb.list[i]] == i)
  }

  /** Every state the interner can be in: linked, with null still first. */
  predicate Consistent(tb: Table) {
    Linked(tb) && |tb.list| > 0 && tb.list[0] == Null
  }

  /**
    * `intern(t)`: `insert` of `(t, size of the map)` keeps an existing
    * entry; a new entry is also appended to the list. The id is the one
    * the map holds afterwards.
    */
  function Insert(tb: Table, t: Ref): (Table, nat) {
    if t in tb.ids then (tb, tb.ids[t])
    else (Table(tb.list + [t], tb.ids[t := |tb.ids|]), |tb.ids|)
  }

  /** Interning a sequence of references into `tb`, one after the other. */
  function InternEach(tb: Table, refs: seq<Ref>): Table
    decreases |refs|
  {
    if refs == [] then tb else Insert(InternEach(tb, refs[..|refs| - 1]), refs[|refs| - 1]).0
  }

  /** Interning a sequence of references from the start. */
  function InternAll(refs: seq<Ref>): Table {
    InternEach(Initial(), refs)
  }

  lemma InitialValid()
    ensures Consistent(Initial())
  {
  }

  /** The invariant is kept by every call. */
  lemma InsertValid(tb: Table, t: Ref)
    requires Consistent(tb)
    ensures Consistent(Insert(tb, t).0)
  {
    if t !in tb.ids {
      var r := Insert(tb, t).0;
      var n := |tb.list|;
      assert t !in tb.list[..] by {
        forall i | 0 <= i < n
          ensures tb.list[i] != t
        {
          assert tb.list[i] in tb.ids;
        }
      }
      forall i | 0 <= i < |r.list|
        ensures r.list[i] in r.ids && r.ids[r.list[i]] == i
      {
        if i < n {
          assert r.list[i] == tb.list[i];
        }
      }
    }
  }

  /** The id `intern` returns names the reference in the list. */
  lemma InsertFound(tb: Table, t: Ref)
    requires Consistent(tb)
    ensures Insert(tb, t).1 < |Insert(tb, t).0.list| && Insert(tb, t).0.list[Insert(tb, t).1] == t
  {
    InsertValid(tb, t);
  }

  /** Null needs no insertion: it is id 0 and nothing changes. */
  lemma NullIsZero(tb: Table)
    requires Consistent(tb)
    ensures Insert(tb, Null) == (tb, 0)
  {
    assert tb.list[0] in tb.ids;
  }

  /** A second `intern(t)` returns the same id and grows neither the list nor the map. */
  lemma Idempotent(tb: Table, t: Ref)
    requires Consistent(tb)
    ensures Insert(Insert(tb, t).0, t) == Insert(tb, t)
  {
  }

  /**
    * A reference not yet interned is not in the list and gets the number
    * of references interned so far, null included; one that is interned
    * gets its place in the list.
    */
  lemma FreshId(tb: Table, t: Ref)
    requires Consistent(tb)
    ensures t !in tb.ids <==> t !in tb.list
    ensures t !in tb.ids ==> Insert(tb, t).1 == |tb.list| && |Insert(tb, t).0.list| == |tb.list| + 1
    ensures t in tb.ids ==> Insert(tb, t).1 < |tb.list| && tb.list[Insert(tb, t).1] == t
  {
    if t in tb.list {
      var i :| 0 <= i < |tb.list| && tb.list[i] == t;
      assert tb.list[i] in tb.ids;
    }
  }

  /** Append-only: existing list entries and existing ids never change. */
  lemma AppendOnly(tb: Table, t: Ref)
    requires Consistent(tb)
    ensures tb.list <= Insert(tb, t).0.list
    ensures forall u :: u in tb.ids ==> u in Insert(tb, t).0.ids && Insert(tb, t).0.ids[u] == tb.ids[u]
  {
  }

  /** The ids are exactly `0..n-1`, each used by one reference. */
  lemma IdsExact(tb: Table)
    requires Linked(tb)
    ensures forall i: int :: i in tb.ids.Values <==> 0 <= i < |tb.list|
    ensures forall t, u :: t in tb.ids && u in tb.ids && tb.ids[t] == tb.ids[u] ==> t == u
  {
    forall i | 0 <= i < |tb.list|
      ensures i in tb.ids.Values
    {
      assert tb.list[i] in tb.ids;
    }
  }

  /** Each reference occurs in the list at most once. */
  predicate Distinct(s: seq<Ref>) {
    forall i, j :: 0 <= i < j < |s| ==> s[i] != s[j]
  }

  lemma LinkedDistinct(tb: Table)
    requires Linked(tb)
    ensures Distinct(tb.list)
  {
    forall i, j | 0 <= i < j < |tb.list|
      ensures tb.list[i] != tb.list[j]
    {
      assert tb.list[i] in tb.ids && tb.list[j] in tb.ids;
    }
  }

  /** The position of the first occurrence of `t`, or the length when there is none. */
  function FirstIndex(refs: seq<Ref>, t: Ref): (k: nat)
    ensures k <= |refs| && (k < |refs| <==> t in refs)
    ensures k < |refs| ==> refs[k] == t && t !in refs[..k]
  {
    if refs == [] then 0
    else if refs[0] == t then 0
    else
      assert refs == [refs[0]] + refs[1..];
      1 + FirstIndex(refs[1..], t)
  }

  /** A later reference does not move the first occurrence of an earlier one. */
  lemma {:induction false} FirstIndexSnoc(refs: seq<Ref>, t: Ref, u: Ref)
    requires u in refs
    ensures FirstIndex(refs + [t], u) == FirstIndex(refs, u)
  {
    if refs[0] != u {
      assert (refs + [t])[1..] == refs[1..] + [t];
      FirstIndexSnoc(refs[1..], t, u);
    }
  }

  /** References of the list past null, all taken from `refs`, in order of first occurrence. */
  predicate Ordered(refs: seq<Ref>, l: seq<Ref>) {
    && (forall i :: 0 < i < |l| ==> l[i] in refs)
    && (forall i, j :: 0 < i < j < |l| ==> FirstIndex(refs, l[i]) < FirstIndex(refs, l[j]))
  }

  /** A reference seen again leaves the order as it was. */
  lemma OrderKept(front: seq<Ref>, t: Ref, l: seq<Ref>)
    requires Ordered(front, l)
    ensures Ordered(front + [t], l)
  {
    forall i | 0 < i < |l|
      ensures FirstIndex(front + [t], l[i]) == FirstIndex(front, l[i])
    {
      FirstIndexSnoc(front, t, l[i]);
    }
  }

  /** A reference seen for the first time goes after all the others. */
  lemma OrderExtended(front: seq<Ref>, t: Ref, l: seq<Ref>)
    requires Ordered(front, l) && t !in front
    ensures Ordered(front + [t], l + [t])
  {
    var refs, l' := front + [t], l + [t];
    OrderKept(front, t, l);
    assert FirstIndex(refs, t) == |front| by {
      assert refs[|front|] == t && refs[..|front|] == front;
    }
    forall i | 0 < i < |l|
      ensures FirstIndex(refs, l'[i]) < FirstIndex(refs, t)
    {
      assert l'[i] == l[i] && l[i] in front;
    }
  }

  /**
    * The list after interning `refs` from the start is null followed by
    * the distinct references of `refs` in the order they were first seen:
    * nothing else is in it, no reference twice, and a reference seen
    * earlier has the lower id.
    */
  lemma {:induction false} FirstSeenOrder(refs: seq<Ref>)
    ensures Consistent(InternAll(refs)) && Distinct(InternAll(refs).list)
    ensures forall t :: t in InternAll(refs).list <==> t == Null || t in refs
    ensures Ordered(refs, InternAll(refs).list)
  {
    if refs == [] {
      InitialValid();
    } else {
      var front, t := refs[..|refs| - 1], refs[|refs| - 1];
      assert refs == front + [t];
      var tb := InternAll(front);
      FirstSeenOrder(front);
      InsertValid(tb, t);
      FreshId(tb, t);
      LinkedDistinct(Insert(tb, t).0);
      if t in tb.ids {
        OrderKept(front, t, tb.list);
      } else {
        OrderExtended(front, t, tb.list);
      }
    }
  }

  /** Interning `a` and then `b` is interning `a + b`. */
  lemma {:induction false} InternEachAppend(tb: Table, a: seq<Ref>, b: seq<Ref>)
    ensures InternEach(tb, a + b) == InternEach(InternEach(tb, a), b)
    decreases |b|
  {
    if b != [] {
      assert (a + b)[..|a + b| - 1] == a + b[..|b| - 1];
      InternEachAppend(tb, a, b[..|b| - 1]);
    } else {
      assert a + b == a;
    }
  }

  /** One more reference interned after `front` keeps what `InternEachGrows` states. */
  lemma InsertGrows(tb: Table, mid: Table, front: seq<Ref>, t: Ref)
    requires Consistent(mid) && tb.list <= mid.list
    requires forall u :: u in mid.ids <==> u in tb.ids || u in front
    ensures var r := Insert(mid, t).0;
      && Consistent(r)
      && tb.list <= r.list
      && forall u :: u in r.ids <==> u in tb.ids || u in front + [t]
  {
    InsertValid(mid, t);
    AppendOnly(mid, t);
  }

  /**
    * Interning a sequence keeps the invariant and every existing entry,
    * and afterwards exactly the references that were interned before or
    * occur in the sequence are interned.
    */
  lemma {:induction false} InternEachGrows(tb: Table, refs: seq<Ref>)
    requires Consistent(tb)
    ensures var r := InternEach(tb, refs);
      && Consistent(r)
      && tb.list <= r.list
      && forall u :: u in r.ids <==> u in tb.ids || u in refs
    decreases |refs|
  {
    if refs != [] {
      var front, t := refs[..|refs| - 1], refs[|refs| - 1];
      assert refs == front + [t];
      InternEachGrows(tb, front);
      InsertGrows(tb, InternEach(tb, front), front, t);
    }
  }

  /** `interned_tree_list` and `interned_tree_ids` together. */
  class Interner {
    var list: seq<Ref>
    var ids: map<Ref, nat>

    function Contents(): Table
      reads this
    {
      Table(list, ids)
    }

    constructor ()
      ensures Contents() == Initial()
      ensures Consistent(Contents())
    {
      list := [Null];
      ids := map[Null := 0];
      InitialValid();
    }

    /** `intern(t)`: the id of `t`, which is appended when new; list and map stay linked. */
    method Intern(t: Ref) returns (id: nat)
      modifies this
      ensures (Contents(), id) == Insert(old(Contents()), t)
      ensures Consistent(old(Contents())) ==> Consistent(Contents()) && list[id] == t
    {
      ghost var before := Contents();
      if Consistent(before) {
        InsertValid(before, t);
        InsertFound(before, t);
      }
      if t in ids {
        id := ids[t];
      } else {
        id := |ids|;
        ids := ids[t := id];
        list := list + [t];
      }
    }
  }
}
