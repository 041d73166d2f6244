/**
 * The DataFrame `df` that `load_and_process_data` updates in place: its header
 * is normalised (lines 32-36), the required names are resolved against it
 * (lines 39-50), and every required name becomes a column (lines 52-56).
 */
module Frames {
  import opened Common
  import opened Strings
  import opened Headers
  import opened Cells

  type Column = seq<Cell>

  /** A table's value: header names and the columns, in parallel. */
  datatype Table = Table(names: seq<string>, cols: seq<Column>)

  /** Names and columns line up and every column has `rows` cells. */
  predicate WellFormed(t: Table, rows: nat) {
    |t.names| == |t.cols| && forall i :: 0 <= i < |t.cols| ==> |t.cols[i]| == rows
  }

  /** `df[name]`: the (first) column of that name. */
  function Lookup(t: Table, name: string): Column
    requires |t.names| == |t.cols| && name in t.names
  {
    t.cols[IndexOf(t.names, name)]
  }

  /** `np.nan` broadcast to a whole column. */
  function AllMissing(rows: nat): (c: Column)
    ensures |c| == rows && forall i :: 0 <= i < rows ==> c[i] == Missing
  {
    seq(rows, i => Missing)
  }

  /**
   * `df[name] = col`: replaces the column of that name, or appends a new one
   * at the right.
   */
  function Assign(t: Table, name: string, col: Column, rows: nat): (r: Table)
    requires WellFormed(t, rows) && |col| == rows
    ensures WellFormed(r, rows)
  {
    var k := IndexOf(t.names, name);
    if k < |t.names| then Table(t.names, t.cols[k := col])
    else Table(t.names + [name], t.cols + [col])
  }

  lemma IndexOfAppend(s: seq<string>, y: string, m: string)
    requires m in s
    ensures IndexOf(s + [y], m) == IndexOf(s, m)
  {
    var k, k' := IndexOf(s, m), IndexOf(s + [y], m);
    assert (s + [y])[k] == m;
    if k' < k {
      assert s[k'] == (s + [y])[k'] == m;
    }
  }

  /** After `df[name] = col`, `name` holds `col` and every other name keeps its column. */
  lemma AssignLookup(t: Table, name: string, col: Column, rows: nat, m: string)
    requires WellFormed(t, rows) && |col| == rows
    ensures var r := Assign(t, name, col, rows);
      && (m in r.names <==> m in t.names || m == name)
      && (m == name ==> Lookup(r, m) == col)
      && (m != name && m in t.names ==> Lookup(r, m) == Lookup(t, m))
  {
    if IndexOf(t.names, name) == |t.names| && m in t.names {
      IndexOfAppend(t.names, name, m);
    }
  }

  /** The value one pass of the copy loop gives the standard name. */
  function SourceColumn(t: Table, actual: string, rows: nat): (c: Column)
    requires WellFormed(t, rows)
    ensures |c| == rows
  {
    if actual in t.names then Lookup(t, actual) else AllMissing(rows)
  }

  /**
   * The loop of lines 52-56 over the mapping's items, in order. Each pass sees
   * the table as the earlier passes left it.
   */
  function CopyAll(t: Table, items: Dict, rows: nat): (r: Table)
    requires WellFormed(t, rows)
    ensures WellFormed(r, rows)
    decreases |items|
  {
    if items == [] then t
    else
      var before := CopyAll(t, items[..|items| - 1], rows);
      var (standard, actual) := items[|items| - 1];
      Assign(before, standard, SourceColumn(before, actual, rows), rows)
  }

  /** The copy loop adds exactly the mapping's keys to the header and removes nothing. */
  lemma {:induction false} CopyAllNames(t: Table, items: Dict, rows: nat, m: string)
    requires WellFormed(t, rows)
    ensures m in CopyAll(t, items, rows).names <==> m in t.names || m in Keys(items)
    decreases |items|
  {
    if items != [] {
      var prefix := items[..|items| - 1];
      var before := CopyAll(t, prefix, rows);
      var (standard, actual) := items[|items| - 1];
      assert Keys(items) == Keys(prefix) + [standard];
      CopyAllNames(t, prefix, rows, m);
      AssignLookup(before, standard, SourceColumn(before, actual, rows), rows, m);
    }
  }

  /** A column whose name is no key of the mapping comes through the copy loop unchanged. */
  lemma {:induction false} CopyAllUntouched(t: Table, items: Dict, rows: nat, m: string)
    requires WellFormed(t, rows) && m in t.names && m !in Keys(items)
    ensures m in CopyAll(t, items, rows).names
    ensures Lookup(CopyAll(t, items, rows), m) == Lookup(t, m)
    decreases |items|
  {
    if items != [] {
      var prefix := items[..|items| - 1];
      var before := CopyAll(t, prefix, rows);
      var (standard, actual) := items[|items| - 1];
      assert Keys(items) == Keys(prefix) + [standard];
      CopyAllUntouched(t, prefix, rows, m);
      AssignLookup(before, standard, SourceColumn(before, actual, rows), rows, m);
    }
  }

  /**
   * With distinct keys, the column a standard name ends up with is the one its
   * own pass assigned: later passes write other names only.
   */
  lemma {:induction false} CopyAllEntry(t: Table, items: Dict, rows: nat, i: nat)
    requires WellFormed(t, rows) && NoDup(Keys(items)) && i < |items|
    ensures items[i].0 in CopyAll(t, items, rows).names
    ensures Lookup(CopyAll(t, items, rows), items[i].0)
         == SourceColumn(CopyAll(t, items[..i], rows), items[i].1, rows)
    decreases |items|
  {
    var prefix := items[..|items| - 1];
    var before := CopyAll(t, prefix, rows);
    var (standard, actual) := items[|items| - 1];
    var m := items[i].0;
    AssignLookup(before, standard, SourceColumn(before, actual, rows), rows, m);
    if i < |items| - 1 {
      assert Keys(prefix) == Keys(items)[..|items| - 1];
      assert Keys(items)[i] != Keys(items)[|items| - 1];
      assert prefix[i] == items[i] && prefix[..i] == items[..i];
      CopyAllEntry(t, prefix, rows, i);
    } else {
      assert prefix == items[..i];
    }
  }

  /**
   * What lines 39-56 promise together: every required name becomes a column;
   * a name whose resolved source is not a column of the sheet holds only
   * missing cells; a name that resolves to itself and is already a column
   * keeps its own column; and a name resolved to a column that is not itself
   * a required name holds a copy of that column.
   */
  lemma HeaderResolution(t: Table, required: seq<string>, rows: nat)
    requires WellFormed(t, rows)
    ensures var r := CopyAll(t, ResolveAll(required, t.names), rows);
      && (forall q :: q in required ==> q in r.names)
      && (forall q :: q in required && Resolve(q, t.names) !in t.names ==>
            Lookup(r, q) == AllMissing(rows))
      && (forall q :: q in required && q in t.names && Resolve(q, t.names) == q ==>
            Lookup(r, q) == Lookup(t, q))
      && (forall q :: q in required && Resolve(q, t.names) in t.names && Resolve(q, t.names) !in required ==>
            Lookup(r, q) == Lookup(t, Resolve(q, t.names)))
  {
    var d := ResolveAll(required, t.names);
    var r := CopyAll(t, d, rows);
    forall q | q in required
      ensures q in r.names
      ensures Resolve(q, t.names) !in t.names ==> Lookup(r, q) == AllMissing(rows)
      ensures q in t.names && Resolve(q, t.names) == q ==> Lookup(r, q) == Lookup(t, q)
      ensures Resolve(q, t.names) in t.names && Resolve(q, t.names) !in required ==>
                Lookup(r, q) == Lookup(t, Resolve(q, t.names))
    {
      var i := IndexOf(Keys(d), q);
      assert d[i].0 == q && d[i].1 == Resolve(q, t.names);
      CopyAllEntry(t, d, rows, i);
      var source := Resolve(q, t.names);
      assert Keys(d[..i]) == Keys(d)[..i];
      CopyAllNames(t, d[..i], rows, source);
      if source !in t.names {
        assert source == q;
        assert q !in Keys(d)[..i];
      } else if source == q {
        assert q !in Keys(d)[..i];
        CopyAllUntouched(t, d[..i], rows, q);
      } else if source !in required {
        assert source !in Keys(d);
        CopyAllUntouched(t, d[..i], rows, source);
      }
    }
  }

  /** `df` as the loader holds it. */
  class Frame {
    var names: seq<string>
    var cols: seq<Column>
    const rows: nat

    ghost predicate Valid()
      reads this
    {
      WellFormed(Table(names, cols), rows)
    }

    constructor (names0: seq<string>, cols0: seq<Column>, rows0: nat)
      requires WellFormed(Table(names0, cols0), rows0)
      ensures Valid() && names == names0 && cols == cols0 && rows == rows0
    {
      names, cols, rows := names0, cols0, rows0;
    }

    /** `normalize_column_names(df)`: renames every column, touches no cell. */
    method NormalizeColumnNames()
      requires Valid()
      modifies this
      ensures Valid()
      ensures names == NormalizeAll(old(names)) && cols == old(cols)
    {
      names := NormalizeAll(names);
    }

    /**
     * The nested loops of lines 41-50: for each required name, scan the header
     * left to right and stop at the first column that equals or contains it.
     */
    method MapColumns(required: seq<string>) returns (mapping: Dict)
      ensures mapping == ResolveAll(required, names)
    {
      mapping := [];
      for i := 0 to |required|
        invariant mapping == ResolveAll(required[..i], names)
      {
        var req := required[i];
        ResolveAllStep(required, names, i);
        var matched := false;
        var j := 0;
        while j < |names|
          invariant j <= |names|
          invariant NoneBefore(req, names, j)
          invariant mapping == ResolveAll(required[..i], names)
        {
          if req == names[j] || Contains(names[j], req) {
            assert Resolve(req, names) == names[j];
            mapping := Put(mapping, req, names[j]);
            matched := true;
            break;
          }
          NoneBeforeStep(req, names, j);
          j := j + 1;
        }
        if !matched {
          assert Resolve(req, names) == req;
          mapping := Put(mapping, req, req);
        }
      }
      assert required[..|required|] == required;
    }

    /**
     * The loop of lines 52-56: each standard name takes a copy of its mapped
     * column as the table stands at that moment, or a column of NaN when that
     * name is not a column.
     */
    method CopyMappedColumns(mapping: Dict)
      requires Valid()
      modifies this
      ensures Valid()
      ensures Table(names, cols) == CopyAll(old(Table(names, cols)), mapping, rows)
    {
      for i := 0 to |mapping|
        invariant Valid()
        invariant Table(names, cols) == CopyAll(old(Table(names, cols)), mapping[..i], rows)
      {
        var (standard, actual) := mapping[i];
        var column := if actual in names then cols[IndexOf(names, actual)] else AllMissing(rows);
        var k := IndexOf(names, standard);
        assert Table(names, cols) == CopyAll(old(Table(names, cols)), mapping[..i], rows);
        assert mapping[..i + 1][..i] == mapping[..i];
        if k < |names| {
          cols := cols[k := column];
        } else {
          names := names + [standard];
          cols := cols + [column];
        }
      }
      assert mapping[..|mapping|] == mapping;
    }

    /**
     * Lines 32-56 in order. Every required name is then a column; one whose
     * source is missing from the normalised header holds only NaN, and one
     * that the normalised header already carries, and that resolves to
     * itself, keeps that column.
     */
    method StandardizeColumns(required: seq<string>) returns (mapping: Dict)
      requires Valid()
      modifies this
      ensures Valid()
      ensures mapping == ResolveAll(required, NormalizeAll(old(names)))
      ensures Table(names, cols) == CopyAll(Table(NormalizeAll(old(names)), old(cols)), mapping, rows)
      ensures forall q :: q in required ==> q in names
      ensures forall q :: q in required && Resolve(q, NormalizeAll(old(names))) !in NormalizeAll(old(names)) ==>
                Lookup(Table(names, cols), q) == AllMissing(rows)
      ensures forall q :: q in required && q in NormalizeAll(old(names)) && Resolve(q, NormalizeAll(old(names))) == q ==>
                Lookup(Table(names, cols), q) == Lookup(Table(NormalizeAll(old(names)), old(cols)), q)
    {
      NormalizeColumnNames();
      mapping := MapColumns(required);
      ghost var normalized := Table(names, cols);
      CopyMappedColumns(mapping);
      HeaderResolution(normalized, required, rows);
    }
  }
}
