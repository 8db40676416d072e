/**
  The table of the "Método de Euler y RK4" panel and the `generar_tabla`
  handler that refills it.
*/
module TablePanel {
  import opened Outcomes
  import opened FixedStep

  /** The panel's `ttk.Treeview`: the rows it shows, in display order. */
  class Panel {
    var rows: seq<Row>

    /** The table starts empty. */
    constructor ()
      ensures rows == []
    {
      rows := [];
    }

    /** `tabla.insert("", "end", values=...)`: one row at the end. */
    method Insert(row: Row)
      modifies this
      ensures rows == old(rows) + [row]
    {
      rows := rows + [row];
    }

    /** Deletes every child of the table, one item at a time, front to back. */
    method Clear()
      modifies this
      ensures rows == []
    {
      var children := rows;
      for j := 0 to |children|
        invariant rows == children[j..]
      {
        rows := rows[1..];
      }
    }

    /**
      `generar_tabla` on already-parsed inputs: computes both trajectories,
      then clears the table and inserts one row per node. `failed` is true
      when the handler reports "Error en tabla" instead of finishing; the
      rows left behind are those `TableAfter` describes.
    */
    method GenerateTable(f: Field, yReal: Exact, y0: real, a: real, b: real, h: real) returns (failed: bool)
      modifies this
      ensures (rows, failed) == TableAfter(old(rows), f, yReal, y0, a, b, h)
    {
      var count := StepCount(a, b, h);
      if count.None? {
        return true;
      }
      var n := count.value;
      var xs := Grid(a, h, n);
      var ye := EulerLoop(f, xs, h, y0, Passes(n));
      if ye.None? {
        return true;
      }
      var yk := Rk4Loop(f, xs, h, y0, Passes(n));
      if yk.None? {
        return true;
      }
      Clear();
      failed := InsertRows(f, yReal, xs, ye.value, yk.value);
      assert rows == Filled(f, yReal, xs, ye.value, yk.value, |xs|).0;
    }

    /**
      The insert loop `for i in range(n_pasos + 1)`: one row per node, in
      node order, appended after the rows already shown; a row that raises
      ends the loop and sets `failed`.
    */
    method InsertRows(f: Field, yReal: Exact, xs: seq<real>, ye: seq<real>, yk: seq<real>) returns (failed: bool)
      requires |xs| <= |ye| && |xs| <= |yk|
      modifies this
      ensures var (inserted, ok) := Filled(f, yReal, xs, ye, yk, |xs|);
        rows == old(rows) + inserted && failed == !ok
    {
      ghost var before := rows;
      for i := 0 to |xs|
        invariant Filled(f, yReal, xs, ye, yk, i).1
        invariant rows == before + Filled(f, yReal, xs, ye, yk, i).0
      {
        var row := MakeRow(f, yReal, i, xs[i], ye[i], yk[i]);
        if row.None? {
          FilledStops(f, yReal, xs, ye, yk, i, Filled(f, yReal, xs, ye, yk, i).0, |xs|);
          return true;
        }
        FilledNext(f, yReal, xs, ye, yk, i, Filled(f, yReal, xs, ye, yk, i).0, row.value);
        Insert(row.value);
      }
      return false;
    }
  }
}
