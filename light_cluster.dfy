/** scripts/light_cluster.py: heavy-chain clones are split by the light chains
    of their cells. Light rows are grouped by a signature (V gene, J gene,
    junction length and heavy clone), the groups are linked into sub-clones
    by `clusterLinkage`, and every heavy row of a cell with a single heavy
    chain gets `clone_<sub-clone>`. */
module LightCluster {
  import opened Results
  import opened Sequences
  import opened Strings
  import opened GeneCalls
  import opened Tables
  import opened Linkage

  /** The five column names the script reads. */
  datatype Columns = Columns(cell: string, clone: string, v: string, j: string, junction: string)

  predicate DistinctNames(c: Columns)
  {
    Distinct([c.cell, c.clone, c.v, c.j, c.junction])
  }

  /** The column names of the table format; no format argument means `changeo`,
      any name other than `changeo` or `airr` stops the script. */
  function ColumnNames(format: Option<string>): (r: Result<Columns>)
    ensures r.Success? <==> format == None || format == Some("changeo") || format == Some("airr")
    ensures r.Success? ==> DistinctNames(r.value)
    ensures r.Failure? ==> r.error == "Invalid format " + format.value
  {
    var f := if format.Some? then format.value else "changeo";
    if f == "changeo" then Success(Columns("CELL", "CLONE", "V_CALL", "J_CALL", "JUNCTION"))
    else if f == "airr" then Success(Columns("cell_id", "clone_id", "v_call", "j_call", "junction"))
    else Failure("Invalid format " + f)
  }

  /** Leaving the format out is the same as asking for `changeo`, and the two
      formats read different columns. */
  lemma FormatDefault()
    ensures ColumnNames(None) == ColumnNames(Some("changeo"))
    ensures ColumnNames(Some("changeo")).value.cell != ColumnNames(Some("airr")).value.cell
  {
  }

  /** The light rows have every column the signature reads. */
  predicate Readable(rows: seq<Row>, cols: Columns)
  {
    HasColumn(rows, cols.cell) && HasColumn(rows, cols.clone) &&
    HasColumn(rows, cols.v) && HasColumn(rows, cols.j) && HasColumn(rows, cols.junction)
  }

  /** The group value of a light row: its VJJL, `,`, its heavy clone. */
  function Signature(row: Row, cols: Columns): (key: string)
    requires cols.clone in row && cols.v in row && cols.j in row && cols.junction in row
  {
    Vjjl(row[cols.v], row[cols.j], row[cols.junction]) + "," + row[cols.clone]
  }

  /** Two light rows have the same signature exactly when they agree on the V
      gene, the J gene, the junction length and the heavy clone; allele
      suffixes and secondary calls play no part. */
  lemma SignatureExact(r1: Row, r2: Row, cols: Columns)
    requires cols.clone in r1 && cols.v in r1 && cols.j in r1 && cols.junction in r1
    requires cols.clone in r2 && cols.v in r2 && cols.j in r2 && cols.junction in r2
    ensures Signature(r1, cols) == Signature(r2, cols) <==>
            GeneName(r1[cols.v]) == GeneName(r2[cols.v]) && GeneName(r1[cols.j]) == GeneName(r2[cols.j]) &&
            |r1[cols.junction]| == |r2[cols.junction]| && r1[cols.clone] == r2[cols.clone]
  {
    var t1, t2 := "," + r1[cols.clone], "," + r2[cols.clone];
    VjjlTailInjective(r1[cols.v], r1[cols.j], r1[cols.junction], t1, r2[cols.v], r2[cols.j], r2[cols.junction], t2);
    assert Signature(r1, cols) == Vjjl(r1[cols.v], r1[cols.j], r1[cols.junction]) + t1;
    assert Signature(r2, cols) == Vjjl(r2[cols.v], r2[cols.j], r2[cols.junction]) + t2;
    assert t1[1..] == r1[cols.clone] && t2[1..] == r2[cols.clone];
  }

  /** `zip(light[cell], signatures)`: the input of `clusterLinkage`. */
  function LightPairs(rows: seq<Row>, cols: Columns): seq<(Cell, Group)>
    requires Readable(rows, cols)
  {
    seq(|rows|, k requires 0 <= k < |rows| => (rows[k][cols.cell], Signature(rows[k], cols)))
  }

  /** The heavy rows left by the doublet filter. */
  function SingleHeavy(heavy: seq<Row>, cols: Columns): (r: seq<Row>)
    requires HasColumn(heavy, cols.cell) && HasColumn(heavy, cols.clone)
    ensures HasColumn(r, cols.cell) && HasColumn(r, cols.clone)
  {
    var r := SingleCellRows(heavy, cols.cell);
    SelectedHasColumn(heavy, r, cols.clone);
    r
  }

  /** The light rows of cells with a single heavy row, with the heavy clone set. */
  function JoinedLight(heavy: seq<Row>, light: seq<Row>, cols: Columns): seq<Row>
    requires HasColumn(heavy, cols.cell) && HasColumn(heavy, cols.clone) && HasColumn(light, cols.cell)
  {
    var single := SingleHeavy(heavy, cols);
    JoinClone(light, cols.cell, cols.clone, CloneDict(single, cols.cell, cols.clone))
  }

  /** The sub-clone labels as text, `str(cluster_dict[cell])`. */
  function Labels(assign: map<Cell, nat>): (labels: map<string, string>)
    ensures labels.Keys == assign.Keys
  {
    map c | c in assign :: NatToString(assign[c])
  }

  /** `clusterLinkage` over the joined light rows: the sub-clone of every labelled cell. */
  function SubClones(heavy: seq<Row>, light: seq<Row>, cols: Columns): map<Cell, nat>
    requires HasColumn(heavy, cols.cell) && HasColumn(heavy, cols.clone) && HasColumn(light, cols.cell)
    requires Readable(JoinedLight(heavy, light, cols), cols)
  {
    LinkageSpec(LightPairs(JoinedLight(heavy, light, cols), cols))
  }

  /** Every column the script reads is there: the cell and clone columns of
      the heavy table, the cell column of the light table, and the V, J and
      junction columns of the joined light rows. */
  predicate LinkageReadable(heavy: Table, light: Table, cols: Columns)
    requires Valid(heavy) && Valid(light)
  {
    cols.cell in heavy.header && cols.clone in heavy.header && cols.cell in light.header &&
    HasColumn(heavy.rows, cols.cell) && HasColumn(heavy.rows, cols.clone) && HasColumn(light.rows, cols.cell) &&
    Readable(JoinedLight(heavy.rows, light.rows, cols), cols)
  }

  /** The whole script after the tables are read: an unknown format stops it
      with `Invalid format <format>`, a missing column with a `KeyError` on
      one of the five columns, and otherwise it gives the relabelled heavy
      table. */
  function SplitByLinkage(format: Option<string>, heavy: Table, light: Table): (r: Result<Table>)
    requires Valid(heavy) && Valid(light)
    ensures r.Success? <==> ColumnNames(format).Success? && LinkageReadable(heavy, light, ColumnNames(format).value)
    ensures ColumnNames(format).Failure? ==> r == Failure("Invalid format " + format.value)
    ensures ColumnNames(format).Success? && r.Failure? ==>
              var cols := ColumnNames(format).value;
              r.error in [MissingColumn(cols.cell), MissingColumn(cols.clone), MissingColumn(cols.v),
                          MissingColumn(cols.j), MissingColumn(cols.junction)]
  {
    match ColumnNames(format)
    case Failure(e) => Failure(e)
    case Success(cols) =>
      if cols.cell !in heavy.header then Failure(MissingColumn(cols.cell))
      else if cols.clone !in heavy.header then Failure(MissingColumn(cols.clone))
      else if cols.cell !in light.header then Failure(MissingColumn(cols.cell))
      else
        HeaderColumn(heavy, cols.cell);
        HeaderColumn(heavy, cols.clone);
        HeaderColumn(light, cols.cell);
        var joined := JoinedLight(heavy.rows, light.rows, cols);
        if !HasColumn(joined, cols.v) then Failure(MissingColumn(cols.v))
        else if !HasColumn(joined, cols.j) then Failure(MissingColumn(cols.j))
        else if !HasColumn(joined, cols.junction) then Failure(MissingColumn(cols.junction))
        else
          Success(Table(heavy.header, Output(heavy.rows, light.rows, cols)))
  }

  /** A cell has a heavy clone to transfer exactly when it has a single heavy row. */
  lemma SingleHeavyCells(heavy: seq<Row>, cols: Columns, c: Cell)
    requires HasColumn(heavy, cols.cell) && HasColumn(heavy, cols.clone)
    ensures c in CloneDict(SingleHeavy(heavy, cols), cols.cell, cols.clone) <==>
            multiset(Column(heavy, cols.cell))[c] == 1
  {
    SingleCellRowsCells(heavy, cols.cell, c);
  }

  lemma PairCells(rows: seq<Row>, cols: Columns, c: Cell)
    requires Readable(rows, cols)
    ensures (exists k :: 0 <= k < |LightPairs(rows, cols)| && LightPairs(rows, cols)[k].0 == c) <==>
            c in Column(rows, cols.cell)
  {
    var pairs := LightPairs(rows, cols);
    if c in Column(rows, cols.cell) {
      var k :| 0 <= k < |rows| && rows[k][cols.cell] == c;
      assert pairs[k].0 == c;
    }
  }

  /** The cells given a sub-clone are exactly the light cells that have a
      single heavy row. */
  lemma LabelledCells(heavy: seq<Row>, light: seq<Row>, cols: Columns, c: Cell)
    requires HasColumn(heavy, cols.cell) && HasColumn(heavy, cols.clone) && HasColumn(light, cols.cell)
    requires DistinctNames(cols)
    requires Readable(JoinedLight(heavy, light, cols), cols)
    ensures c in LinkageSpec(LightPairs(JoinedLight(heavy, light, cols), cols)) <==>
            c in Column(light, cols.cell) && multiset(Column(heavy, cols.cell))[c] == 1
  {
    var clones := CloneDict(SingleHeavy(heavy, cols), cols.cell, cols.clone);
    var joined := JoinedLight(heavy, light, cols);
    assert cols.cell != cols.clone by {
      assert [cols.cell, cols.clone, cols.v, cols.j, cols.junction][0] == cols.cell;
      assert [cols.cell, cols.clone, cols.v, cols.j, cols.junction][1] == cols.clone;
    }
    LinkageDomain(LightPairs(joined, cols));
    PairCells(joined, cols, c);
    JoinCloneCells(light, cols.cell, cols.clone, clones, c);
    SingleHeavyCells(heavy, cols, c);
  }

  /** `out` is a heavy row of a cell with one heavy row and some light row,
      its clone suffixed with the cell's sub-clone. */
  predicate Relabelled(out: Row, heavy: seq<Row>, light: seq<Row>, cols: Columns)
    requires HasColumn(heavy, cols.cell) && HasColumn(heavy, cols.clone) && HasColumn(light, cols.cell)
    requires Readable(JoinedLight(heavy, light, cols), cols)
  {
    exists i :: 0 <= i < |heavy| && multiset(Column(heavy, cols.cell))[heavy[i][cols.cell]] == 1 &&
                heavy[i][cols.cell] in Column(light, cols.cell) &&
                heavy[i][cols.cell] in SubClones(heavy, light, cols) &&
                out == Suffixed(heavy[i], cols.clone, NatToString(SubClones(heavy, light, cols)[heavy[i][cols.cell]]))
  }

  /** The heavy rows after relabelling, `heavy_df` as written. */
  function Output(heavy: seq<Row>, light: seq<Row>, cols: Columns): (out: seq<Row>)
    requires HasColumn(heavy, cols.cell) && HasColumn(heavy, cols.clone) && HasColumn(light, cols.cell)
    requires Readable(JoinedLight(heavy, light, cols), cols)
  {
    Relabel(SingleHeavy(heavy, cols), cols.cell, cols.clone, Labels(SubClones(heavy, light, cols)))
  }

  /** Every written row is a relabelled heavy row of a kept cell. */
  lemma OutputSound(heavy: seq<Row>, light: seq<Row>, cols: Columns)
    requires HasColumn(heavy, cols.cell) && HasColumn(heavy, cols.clone) && HasColumn(light, cols.cell)
    requires Readable(JoinedLight(heavy, light, cols), cols)
    requires DistinctNames(cols)
    ensures forall k :: 0 <= k < |Output(heavy, light, cols)| ==> Relabelled(Output(heavy, light, cols)[k], heavy, light, cols)
  {
    var single := SingleHeavy(heavy, cols);
    var assign := SubClones(heavy, light, cols);
    var labels := Labels(assign);
    var out := Output(heavy, light, cols);
    RelabelRows(single, cols.cell, cols.clone, labels);
    forall k | 0 <= k < |out| ensures Relabelled(out[k], heavy, light, cols) {
      assert SuffixedFrom(out[k], single, cols.cell, cols.clone, labels);
      var i :| 0 <= i < |single| && single[i][cols.cell] in labels &&
               out[k] == Suffixed(single[i], cols.clone, labels[single[i][cols.cell]]);
      var h :| 0 <= h < |heavy| && heavy[h] == single[i];
      LabelledCells(heavy, light, cols, single[i][cols.cell]);
    }
  }

  /** Every heavy row of a cell with one heavy row and some light row is written, relabelled. */
  lemma OutputComplete(heavy: seq<Row>, light: seq<Row>, cols: Columns)
    requires HasColumn(heavy, cols.cell) && HasColumn(heavy, cols.clone) && HasColumn(light, cols.cell)
    requires Readable(JoinedLight(heavy, light, cols), cols)
    requires DistinctNames(cols)
    ensures forall i :: 0 <= i < |heavy| && multiset(Column(heavy, cols.cell))[heavy[i][cols.cell]] == 1 &&
                        heavy[i][cols.cell] in Column(light, cols.cell) ==>
              heavy[i][cols.cell] in SubClones(heavy, light, cols) &&
              Suffixed(heavy[i], cols.clone, NatToString(SubClones(heavy, light, cols)[heavy[i][cols.cell]]))
                in Output(heavy, light, cols)
  {
    var single := SingleHeavy(heavy, cols);
    var assign := SubClones(heavy, light, cols);
    var labels := Labels(assign);
    RelabelRows(single, cols.cell, cols.clone, labels);
    SingleCellRowsExact(heavy, cols.cell);
    forall i | 0 <= i < |heavy| && multiset(Column(heavy, cols.cell))[heavy[i][cols.cell]] == 1 &&
               heavy[i][cols.cell] in Column(light, cols.cell)
      ensures heavy[i][cols.cell] in assign
      ensures Suffixed(heavy[i], cols.clone, NatToString(assign[heavy[i][cols.cell]])) in Output(heavy, light, cols)
    {
      LabelledCells(heavy, light, cols, heavy[i][cols.cell]);
      assert heavy[i] in single;
      var k :| 0 <= k < |single| && single[k] == heavy[i];
    }
  }

  /** The table written: the heavy columns, and exactly the heavy rows of cells
      that have one heavy row and at least one light row, each with its clone
      suffixed by `_` and the cell's sub-clone, every other column unchanged. */
  lemma SplitByLinkageOutput(format: Option<string>, heavy: Table, light: Table, cols: Columns, out: Table)
    requires Valid(heavy) && Valid(light)
    requires ColumnNames(format) == Success(cols)
    requires SplitByLinkage(format, heavy, light) == Success(out)
    ensures HasColumn(heavy.rows, cols.cell) && HasColumn(heavy.rows, cols.clone) && HasColumn(light.rows, cols.cell)
    ensures Readable(JoinedLight(heavy.rows, light.rows, cols), cols)
    ensures out == Table(heavy.header, Output(heavy.rows, light.rows, cols)) && Valid(out)
    ensures forall k :: 0 <= k < |out.rows| ==> Relabelled(out.rows[k], heavy.rows, light.rows, cols)
    ensures forall i :: 0 <= i < |heavy.rows| && multiset(Column(heavy.rows, cols.cell))[heavy.rows[i][cols.cell]] == 1 &&
                        heavy.rows[i][cols.cell] in Column(light.rows, cols.cell) ==>
              heavy.rows[i][cols.cell] in SubClones(heavy.rows, light.rows, cols) &&
              Suffixed(heavy.rows[i], cols.clone, NatToString(SubClones(heavy.rows, light.rows, cols)[heavy.rows[i][cols.cell]]))
                in out.rows
  {
    HeaderColumn(heavy, cols.cell);
    HeaderColumn(heavy, cols.clone);
    HeaderColumn(light, cols.cell);
    OutputSound(heavy.rows, light.rows, cols);
    OutputComplete(heavy.rows, light.rows, cols);
    SingleHeavyValid(heavy, cols);
    RelabelValid(Table(heavy.header, SingleHeavy(heavy.rows, cols)), cols.cell, cols.clone,
                 Labels(SubClones(heavy.rows, light.rows, cols)));
  }

  /** Dropping heavy rows keeps the header of the heavy table. */
  lemma SingleHeavyValid(heavy: Table, cols: Columns)
    requires Valid(heavy) && HasColumn(heavy.rows, cols.cell) && HasColumn(heavy.rows, cols.clone)
    ensures Valid(Table(heavy.header, SingleHeavy(heavy.rows, cols)))
  {
    var single := SingleHeavy(heavy.rows, cols);
    forall k | 0 <= k < |single| ensures single[k].Keys == set c | c in heavy.header {
      var h :| 0 <= h < |heavy.rows| && heavy.rows[h] == single[k];
    }
  }

  /** With one signature per cell (for instance one light chain per cell), the
      linkage is exact: two light rows' cells share a sub-clone exactly when
      the rows agree on V gene, J gene, junction length and heavy clone. */
  lemma SameSubCloneExact(rows: seq<Row>, cols: Columns, a: nat, b: nat)
    requires Readable(rows, cols)
    requires OneGroupPerCell(LightPairs(rows, cols))
    requires a < |rows| && b < |rows|
    ensures rows[a][cols.cell] in LinkageSpec(LightPairs(rows, cols))
    ensures rows[b][cols.cell] in LinkageSpec(LightPairs(rows, cols))
    ensures LinkageSpec(LightPairs(rows, cols))[rows[a][cols.cell]] == LinkageSpec(LightPairs(rows, cols))[rows[b][cols.cell]] <==>
            GeneName(rows[a][cols.v]) == GeneName(rows[b][cols.v]) &&
            GeneName(rows[a][cols.j]) == GeneName(rows[b][cols.j]) &&
            |rows[a][cols.junction]| == |rows[b][cols.junction]| && rows[a][cols.clone] == rows[b][cols.clone]
  {
    var pairs := LightPairs(rows, cols);
    LinkageOneGroupPerCell(pairs);
    assert pairs[a] == (rows[a][cols.cell], Signature(rows[a], cols));
    assert pairs[b] == (rows[b][cols.cell], Signature(rows[b], cols));
    SignatureExact(rows[a], rows[b], cols);
  }
}
