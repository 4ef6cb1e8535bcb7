/**
  * The enum-to-name tables of `names.cpp`: arrays of name slots filled at
  * start-up by `NAME`, one write per enumerator, then scanned by
  * `check_array` for a slot that was left empty.
  */
module Names {

  import opened Wrappers
  import opened Text

  /**
    * `NAME(a, x)`: the index must lie inside the array and its slot must
    * still be empty (both are assertions); the slot then holds the name.
    */
  method Name(a: array<Option<string>>, x: int, name: string)
    requires 0 <= x < a.Length && a[x] == None
    modifies a
    ensures a[..] == old(a[..])[x := Some(name)]
  {
    a[x] := Some(name);
  }

  /**
    * The table after a run of `NAME` calls, or `None` when one of their
    * assertions fails (the start-up aborts).
    */
  function Fill(slots: seq<Option<string>>, entries: seq<(int, string)>): Option<seq<Option<string>>>
    decreases |entries|
  {
    if entries == [] then Some(slots)
    else
      var (x, name) := entries[0];
      if 0 <= x < |slots| && slots[x] == None then Fill(slots[x := Some(name)], entries[1..])
      else None
  }

  /** The indices of a run of `NAME` calls are pairwise distinct. */
  predicate DistinctIndices(entries: seq<(int, string)>) {
    forall i, j :: 0 <= i < j < |entries| ==> entries[i].0 != entries[j].0
  }

  /** Every index of the run addresses a slot of the table that starts out empty. */
  predicate Targets(slots: seq<Option<string>>, entries: seq<(int, string)>) {
    forall i :: 0 <= i < |entries| ==> 0 <= entries[i].0 < |slots| && slots[entries[i].0] == None
  }

  /** The slot an index of the run ends up naming. */
  function Named(entries: seq<(int, string)>, x: int): Option<string>
    decreases |entries|
  {
    if entries == [] then None
    else if entries[0].0 == x then Some(entries[0].1)
    else Named(entries[1..], x)
  }

  /** A named slot is the index of some entry of the run. */
  lemma {:induction false} NamedAt(entries: seq<(int, string)>, x: int) returns (j: nat)
    requires Named(entries, x).Some?
    ensures j < |entries| && entries[j].0 == x
    decreases |entries|
  {
    if entries[0].0 == x {
      j := 0;
    } else {
      var k := NamedAt(entries[1..], x);
      j := k + 1;
    }
  }

  /**
    * A run of `NAME` calls passes all its assertions exactly when its
    * indices are in range, distinct and start out empty: each slot is
    * written at most once. When it passes, a named slot holds its name and
    * every other slot is as it was.
    */
  lemma {:induction false} FillWriteOnce(slots: seq<Option<string>>, entries: seq<(int, string)>)
    ensures Fill(slots, entries).Some? <==> Targets(slots, entries) && DistinctIndices(entries)
    ensures Fill(slots, entries).Some? ==>
      && |Fill(slots, entries).value| == |slots|
      && forall i :: 0 <= i < |slots| ==>
           Fill(slots, entries).value[i] == if Named(entries, i).Some? then Named(entries, i) else slots[i]
    decreases |entries|
  {
    if entries != [] {
      var (x, name) := entries[0];
      var rest := entries[1..];
      if 0 <= x < |slots| && slots[x] == None {
        var slots' := slots[x := Some(name)];
        FillWriteOnce(slots', rest);
        if Fill(slots', rest).Some? {
          if Named(rest, x).Some? {
            var j := NamedAt(rest, x);
            assert false;
          }
          forall i | 0 <= i < |slots|
            ensures Fill(slots, entries).value[i] == if Named(entries, i).Some? then Named(entries, i) else slots[i]
          {
          }
        }
        assert Targets(slots, entries) && DistinctIndices(entries) <==> Targets(slots', rest) && DistinctIndices(rest) by {
          if Targets(slots, entries) && DistinctIndices(entries) {
            forall i | 0 <= i < |rest|
              ensures 0 <= rest[i].0 < |slots'| && slots'[rest[i].0] == None
            {
              assert rest[i] == entries[i + 1];
            }
            forall i, j | 0 <= i < j < |rest|
              ensures rest[i].0 != rest[j].0
            {
              assert rest[i] == entries[i + 1] && rest[j] == entries[j + 1];
            }
          }
          if Targets(slots', rest) && DistinctIndices(rest) {
            forall i | 0 <= i < |entries|
              ensures 0 <= entries[i].0 < |slots| && slots[entries[i].0] == None
            {
              if i > 0 {
                assert entries[i] == rest[i - 1];
              }
            }
            forall i, j | 0 <= i < j < |entries|
              ensures entries[i].0 != entries[j].0
            {
              if i > 0 {
                assert entries[i] == rest[i - 1];
              }
              assert entries[j] == rest[j - 1];
            }
          }
        }
      } else {
        assert !Targets(slots, entries) by {
          assert entries[0].0 == x;
        }
      }
    }
  }

  /** `NAME` on every entry of the run, in order: the start-up body for one table. */
  method NameAll(a: array<Option<string>>, entries: seq<(int, string)>)
    requires Fill(a[..], entries).Some?
    modifies a
    ensures a[..] == Fill(old(a[..]), entries).value
  {
    var i := 0;
    while i < |entries|
      invariant 0 <= i <= |entries|
      invariant Fill(a[..], entries[i..]) == Fill(old(a[..]), entries)
    {
      var (x, name) := entries[i];
      assert entries[i..][1..] == entries[i + 1..];
      Name(a, x, name);
      i := i + 1;
    }
  }

  /** What `check_array` reports about the first empty slot. */
  datatype Report = Missing(index: nat, previous: Option<string>)

  /**
    * `check_array(name, arr)`: scans the slots in order and reports the
    * first empty one, with the name in the slot before it when there is
    * one, then stops; a complete table gives no report.
    */
  method CheckArray(arr: array<Option<string>>) returns (report: Option<Report>)
    ensures report == None <==> forall i :: 0 <= i < arr.Length ==> arr[i].Some?
    ensures report.Some? ==>
      var k := report.value.index;
      && k < arr.Length && arr[k] == None
      && (forall i :: 0 <= i < k ==> arr[i].Some?)
      && report.value.previous == if k > 0 then arr[k - 1] else None
  {
    var i := 0;
    while i < arr.Length
      invariant 0 <= i <= arr.Length
      invariant forall j :: 0 <= j < i ==> arr[j].Some?
    {
      if arr[i] == None {
        var previous := if i > 0 then arr[i - 1] else None;
        return Some(Missing(i, previous));
      }
      i := i + 1;
    }
    return None;
  }

  /** The lines `check_array` prints for a report on the table `name`. */
  function ReportLines(name: string, r: Report): (lines: seq<string>)
    ensures |lines| == if r.index > 0 then 3 else 2
  {
    ["Warning: incomplete array " + name, "         missing element #" + Decimal(r.index)]
    + (if r.index > 0 then ["         previous was " + PreviousText(r.previous)] else [])
  }

  /** `printf("%s", p)` of a slot: glibc writes `(null)` for an empty one. */
  function PreviousText(p: Option<string>): string {
    if p.Some? then p.value else "(null)"
  }

  /** The TLS models of GCC's `enum tls_model`, in enumerator order. */
  const TlsModelNone := 0
  const TlsModelEmulated := 1
  const TlsModelReal := 2
  const TlsModelGlobalDynamic := TlsModelReal
  const TlsModelLocalDynamic := 3
  const TlsModelInitialExec := 4
  const TlsModelLocalExec := 5

  /** `tls_model_names`, written out as a constant table. */
  const TlsModelNames: seq<string> :=
    ["none", "emulated", "global_dynamic", "local_dynamic", "initial_exec", "local_exec"]

  /** The assertions at the end of the start-up: each model names itself, and `TLS_MODEL_REAL` reads as global-dynamic. */
  lemma TlsModelNamesChecked()
    ensures |TlsModelNames| == 6
    ensures TlsModelNames[TlsModelNone] == "none"
    ensures TlsModelNames[TlsModelEmulated] == "emulated"
    ensures TlsModelNames[TlsModelGlobalDynamic] == "global_dynamic"
    ensures TlsModelNames[TlsModelReal] == "global_dynamic"
    ensures TlsModelNames[TlsModelLocalDynamic] == "local_dynamic"
    ensures TlsModelNames[TlsModelInitialExec] == "initial_exec"
    ensures TlsModelNames[TlsModelLocalExec] == "local_exec"
    ensures forall i, j :: 0 <= i < j < |TlsModelNames| ==> TlsModelNames[i] != TlsModelNames[j]
  {
  }
}
