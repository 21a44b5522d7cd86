/** Tab-separated tables as the correction scripts see them after reading:
    a header and rows that map each column name to its text, plus the
    row filters and column rewrites the two scripts share. */
module Tables {

  /** One row: column name to cell text (every column is read as text). */
  type Row = map<string, string>

  datatype Table = Table(header: seq<string>, rows: seq<Row>)

  /** Every row has exactly the header's columns. */
  predicate Valid(t: Table)
  {
    forall k :: 0 <= k < |t.rows| ==> t.rows[k].Keys == set c | c in t.header
  }

  /** The error raised when a column that is read does not exist (a `KeyError`). */
  function MissingColumn(col: string): string
  {
    "KeyError: " + col
  }

  predicate HasColumn(rows: seq<Row>, col: string)
  {
    forall k :: 0 <= k < |rows| ==> col in rows[k]
  }

  lemma HeaderColumn(t: Table, col: string)
    requires Valid(t) && col in t.header
    ensures HasColumn(t.rows, col)
  {
    forall k | 0 <= k < |t.rows| ensures col in t.rows[k] {
      assert col in set c | c in t.header;
    }
  }

  /** The values of one column, in row order. */
  function Column(rows: seq<Row>, col: string): (vs: seq<string>)
    requires HasColumn(rows, col)
    ensures |vs| == |rows|
    ensures forall k :: 0 <= k < |rows| ==> vs[k] == rows[k][col]
  {
    if rows == [] then []
    else Column(rows[..|rows| - 1], col) + [rows[|rows| - 1][col]]
  }

  // ---------------------------------------------------------------------------
  // The cell-to-clone dictionary {row[cell]: row[clone]} built over the rows.

  /** `{v[cell]: v[clone] for each row v}`: a later row for the same cell
      overwrites an earlier one. */
  function CloneDict(rows: seq<Row>, cellCol: string, cloneCol: string): (m: map<string, string>)
    requires HasColumn(rows, cellCol) && HasColumn(rows, cloneCol)
    ensures forall cell :: cell in m <==> cell in Column(rows, cellCol)
  {
    if rows == [] then map[]
    else
      var last := rows[|rows| - 1];
      var init := rows[..|rows| - 1];
      assert Column(rows, cellCol) == Column(init, cellCol) + [last[cellCol]];
      CloneDict(init, cellCol, cloneCol)[last[cellCol] := last[cloneCol]]
  }

  /** The clone of a cell is the one on the last row for that cell. */
  lemma {:induction false} CloneDictLastRow(rows: seq<Row>, cellCol: string, cloneCol: string, k: nat)
    requires HasColumn(rows, cellCol) && HasColumn(rows, cloneCol)
    requires k < |rows|
    requires forall i :: k < i < |rows| ==> rows[i][cellCol] != rows[k][cellCol]
    ensures rows[k][cellCol] in CloneDict(rows, cellCol, cloneCol)
    ensures CloneDict(rows, cellCol, cloneCol)[rows[k][cellCol]] == rows[k][cloneCol]
  {
    if k < |rows| - 1 {
      CloneDictLastRow(rows[..|rows| - 1], cellCol, cloneCol, k);
    }
  }

  // ---------------------------------------------------------------------------
  // Dropping doublets: rows whose cell occurs more than once.

  /** The rows whose cell has count one in `counts`, in their order. */
  function KeepCounted(rows: seq<Row>, cellCol: string, counts: multiset<string>): (r: seq<Row>)
    requires HasColumn(rows, cellCol)
    ensures |r| <= |rows|
    ensures forall k :: 0 <= k < |r| ==> r[k] in rows && cellCol in r[k] && counts[r[k][cellCol]] == 1
  {
    if rows == [] then []
    else
      var init := rows[..|rows| - 1];
      var last := rows[|rows| - 1];
      var kept := KeepCounted(init, cellCol, counts);
      if counts[last[cellCol]] == 1 then kept + [last] else kept
  }

  /** The filter works row by row: it keeps the rows in their input order. */
  lemma {:induction false} KeepCountedAppend(a: seq<Row>, b: seq<Row>, cellCol: string, counts: multiset<string>)
    requires HasColumn(a, cellCol) && HasColumn(b, cellCol)
    ensures HasColumn(a + b, cellCol)
    ensures KeepCounted(a + b, cellCol, counts) == KeepCounted(a, cellCol, counts) + KeepCounted(b, cellCol, counts)
  {
    if b == [] {
      assert a + b == a;
    } else {
      var b' := b[..|b| - 1];
      assert (a + b)[..|a + b| - 1] == a + b';
      assert (a + b)[|a + b| - 1] == b[|b| - 1];
      KeepCountedAppend(a, b', cellCol, counts);
    }
  }

  /** One row is kept when its cell has count one, and dropped otherwise. */
  lemma KeepCountedOne(row: Row, cellCol: string, counts: multiset<string>)
    requires cellCol in row
    ensures KeepCounted([row], cellCol, counts) == if counts[row[cellCol]] == 1 then [row] else []
  {
    assert [row][..0] == [];
  }

  lemma {:induction false} KeepCountedComplete(rows: seq<Row>, cellCol: string, counts: multiset<string>)
    requires HasColumn(rows, cellCol)
    ensures forall k :: 0 <= k < |rows| && counts[rows[k][cellCol]] == 1 ==>
              rows[k] in KeepCounted(rows, cellCol, counts)
  {
    if rows != [] {
      var init := rows[..|rows| - 1];
      KeepCountedComplete(init, cellCol, counts);
      assert forall k :: 0 <= k < |init| ==> init[k] == rows[k];
    }
  }

  lemma {:induction false} KeepCountedSubMultiset(rows: seq<Row>, cellCol: string, counts: multiset<string>)
    requires HasColumn(rows, cellCol)
    ensures HasColumn(KeepCounted(rows, cellCol, counts), cellCol)
    ensures multiset(Column(KeepCounted(rows, cellCol, counts), cellCol)) <= multiset(Column(rows, cellCol))
  {
    if rows != [] {
      var init := rows[..|rows| - 1];
      var last := rows[|rows| - 1];
      var kept := KeepCounted(init, cellCol, counts);
      KeepCountedSubMultiset(init, cellCol, counts);
      var x := last[cellCol];
      assert Column(rows, cellCol) == Column(init, cellCol) + [x];
      assert multiset(Column(rows, cellCol)) == multiset(Column(init, cellCol)) + multiset{x};
      if counts[x] == 1 {
        assert Column(kept + [last], cellCol) == Column(kept, cellCol) + [x];
        assert multiset(Column(kept + [last], cellCol)) == multiset(Column(kept, cellCol)) + multiset{x};
      }
    }
  }

  /** Heavy rows whose cell occurs exactly once in the table (the doublet
      filter `groupby(cell)[cell].transform("count") == 1`), in table order. */
  function SingleCellRows(rows: seq<Row>, cellCol: string): (r: seq<Row>)
    requires HasColumn(rows, cellCol)
    ensures HasColumn(r, cellCol)
    ensures forall k :: 0 <= k < |r| ==>
              r[k] in rows && multiset(Column(rows, cellCol))[r[k][cellCol]] == 1
  {
    KeepCounted(rows, cellCol, multiset(Column(rows, cellCol)))
  }

  lemma TwiceInSeq(s: seq<string>, i: nat, j: nat)
    requires i < j < |s| && s[i] == s[j]
    ensures multiset(s)[s[i]] >= 2
  {
    assert s == s[..j] + s[j..];
    assert s[i] in s[..j];
    assert s[j..] == [s[j]] + s[j + 1..];
  }

  /** The doublet filter keeps exactly the rows whose cell occurs once, and
      afterwards no two rows share a cell. */
  lemma SingleCellRowsExact(rows: seq<Row>, cellCol: string)
    requires HasColumn(rows, cellCol)
    ensures forall k :: 0 <= k < |rows| ==>
              (rows[k] in SingleCellRows(rows, cellCol) <==> multiset(Column(rows, cellCol))[rows[k][cellCol]] == 1)
    ensures forall i, j :: 0 <= i < j < |SingleCellRows(rows, cellCol)| ==>
              SingleCellRows(rows, cellCol)[i][cellCol] != SingleCellRows(rows, cellCol)[j][cellCol]
  {
    SingleCellRowsKept(rows, cellCol);
    SingleCellRowsDistinct(rows, cellCol);
  }

  lemma SingleCellRowsKept(rows: seq<Row>, cellCol: string)
    requires HasColumn(rows, cellCol)
    ensures forall k :: 0 <= k < |rows| ==>
              (rows[k] in SingleCellRows(rows, cellCol) <==> multiset(Column(rows, cellCol))[rows[k][cellCol]] == 1)
  {
    var counts := multiset(Column(rows, cellCol));
    var r := SingleCellRows(rows, cellCol);
    KeepCountedComplete(rows, cellCol, counts);
    forall k | 0 <= k < |rows| && rows[k] in r ensures counts[rows[k][cellCol]] == 1 {
      var i :| 0 <= i < |r| && r[i] == rows[k];
    }
  }

  lemma SingleCellRowsDistinct(rows: seq<Row>, cellCol: string)
    requires HasColumn(rows, cellCol)
    ensures forall i, j :: 0 <= i < j < |SingleCellRows(rows, cellCol)| ==>
              SingleCellRows(rows, cellCol)[i][cellCol] != SingleCellRows(rows, cellCol)[j][cellCol]
  {
    var counts := multiset(Column(rows, cellCol));
    var r := SingleCellRows(rows, cellCol);
    KeepCountedSubMultiset(rows, cellCol, counts);
    var col := Column(r, cellCol);
    forall i, j | 0 <= i < j < |r| ensures r[i][cellCol] != r[j][cellCol] {
      assert counts[col[i]] == 1;
      assert multiset(col)[col[i]] <= counts[col[i]];
      OnceInSeq(col, i, j);
    }
  }

  lemma OnceInSeq(s: seq<string>, i: nat, j: nat)
    requires i < j < |s| && multiset(s)[s[i]] <= 1
    ensures s[i] != s[j]
  {
    if s[i] == s[j] {
      TwiceInSeq(s, i, j);
    }
  }

  /** A cell survives the doublet filter exactly when it occurs once. */
  lemma SingleCellRowsCells(rows: seq<Row>, cellCol: string, c: string)
    requires HasColumn(rows, cellCol)
    ensures c in Column(SingleCellRows(rows, cellCol), cellCol) <==> multiset(Column(rows, cellCol))[c] == 1
  {
    if c in Column(SingleCellRows(rows, cellCol), cellCol) {
      KeptCellOnce(rows, cellCol, c);
    }
    if multiset(Column(rows, cellCol))[c] == 1 {
      OnceCellKept(rows, cellCol, c);
    }
  }

  lemma KeptCellOnce(rows: seq<Row>, cellCol: string, c: string)
    requires HasColumn(rows, cellCol)
    requires c in Column(SingleCellRows(rows, cellCol), cellCol)
    ensures multiset(Column(rows, cellCol))[c] == 1
  {
    var single := SingleCellRows(rows, cellCol);
    var k :| 0 <= k < |single| && single[k][cellCol] == c;
  }

  lemma OnceCellKept(rows: seq<Row>, cellCol: string, c: string)
    requires HasColumn(rows, cellCol)
    requires multiset(Column(rows, cellCol))[c] == 1
    ensures c in Column(SingleCellRows(rows, cellCol), cellCol)
  {
    var single := SingleCellRows(rows, cellCol);
    SingleCellRowsExact(rows, cellCol);
    assert c in Column(rows, cellCol);
    var i :| 0 <= i < |rows| && rows[i][cellCol] == c;
    assert rows[i] in single;
    var k :| 0 <= k < |single| && single[k] == rows[i];
    assert Column(single, cellCol)[k] == c;
  }

  /** A selection of rows keeps every column the rows all have. */
  lemma SelectedHasColumn(rows: seq<Row>, sel: seq<Row>, col: string)
    requires HasColumn(rows, col)
    requires forall k :: 0 <= k < |sel| ==> sel[k] in rows
    ensures HasColumn(sel, col)
  {
    forall k | 0 <= k < |sel| ensures col in sel[k] {
      var i :| 0 <= i < |rows| && rows[i] == sel[k];
    }
  }

  // ---------------------------------------------------------------------------
  // Transferring heavy clones to light rows: an inner join on the cell.

  /** `row` with its clone column set to the clone of its cell. */
  function WithClone(row: Row, cellCol: string, cloneCol: string, clones: map<string, string>): (r: Row)
    requires cellCol in row && row[cellCol] in clones
  {
    row[cloneCol := clones[row[cellCol]]]
  }

  /** Keep the rows whose cell is a key of `clones` and set their clone column
      to that cell's clone (`df.loc[cell in clones]`, then `df[clone] = clones[cell]`). */
  function JoinClone(rows: seq<Row>, cellCol: string, cloneCol: string, clones: map<string, string>): (r: seq<Row>)
    requires HasColumn(rows, cellCol)
    ensures |r| <= |rows|
    ensures HasColumn(r, cellCol) && HasColumn(r, cloneCol)
  {
    if rows == [] then []
    else
      var init := rows[..|rows| - 1];
      var last := rows[|rows| - 1];
      var done := JoinClone(init, cellCol, cloneCol, clones);
      if last[cellCol] in clones then done + [WithClone(last, cellCol, cloneCol, clones)] else done
  }

  /** The join works row by row: it keeps the rows in their input order. */
  lemma {:induction false} JoinCloneAppend(a: seq<Row>, b: seq<Row>, cellCol: string, cloneCol: string,
                                           clones: map<string, string>)
    requires HasColumn(a, cellCol) && HasColumn(b, cellCol)
    ensures HasColumn(a + b, cellCol)
    ensures JoinClone(a + b, cellCol, cloneCol, clones) ==
            JoinClone(a, cellCol, cloneCol, clones) + JoinClone(b, cellCol, cloneCol, clones)
  {
    if b == [] {
      assert a + b == a;
    } else {
      var b' := b[..|b| - 1];
      assert (a + b)[..|a + b| - 1] == a + b';
      assert (a + b)[|a + b| - 1] == b[|b| - 1];
      JoinCloneAppend(a, b', cellCol, cloneCol, clones);
    }
  }

  /** One row is joined, with the dictionary's clone, when its cell is a key,
      and dropped otherwise. */
  lemma JoinCloneOne(row: Row, cellCol: string, cloneCol: string, clones: map<string, string>)
    requires cellCol in row
    ensures JoinClone([row], cellCol, cloneCol, clones) ==
            if row[cellCol] in clones then [row[cloneCol := clones[row[cellCol]]]] else []
  {
    assert [row][..0] == [];
  }

  /** `out` is some input row whose cell has a clone, with that clone set. */
  predicate JoinedFrom(out: Row, rows: seq<Row>, cellCol: string, cloneCol: string, clones: map<string, string>)
    requires HasColumn(rows, cellCol)
  {
    exists i :: 0 <= i < |rows| && rows[i][cellCol] in clones &&
                out == WithClone(rows[i], cellCol, cloneCol, clones)
  }

  /** Every joined row is an input row whose cell has a clone, given that
      clone; every such input row is joined. */
  lemma {:induction false} JoinCloneRows(rows: seq<Row>, cellCol: string, cloneCol: string, clones: map<string, string>)
    requires HasColumn(rows, cellCol)
    ensures forall k :: 0 <= k < |JoinClone(rows, cellCol, cloneCol, clones)| ==>
              JoinedFrom(JoinClone(rows, cellCol, cloneCol, clones)[k], rows, cellCol, cloneCol, clones)
    ensures forall i :: 0 <= i < |rows| && rows[i][cellCol] in clones ==>
              WithClone(rows[i], cellCol, cloneCol, clones) in JoinClone(rows, cellCol, cloneCol, clones)
  {
    if rows != [] {
      var init := rows[..|rows| - 1];
      var last := |rows| - 1;
      JoinCloneRows(init, cellCol, cloneCol, clones);
      assert forall i :: 0 <= i < |init| ==> init[i] == rows[i];
      var done := JoinClone(init, cellCol, cloneCol, clones);
      var r := JoinClone(rows, cellCol, cloneCol, clones);
      forall k | 0 <= k < |r| ensures JoinedFrom(r[k], rows, cellCol, cloneCol, clones) {
        if k < |done| {
          assert JoinedFrom(done[k], init, cellCol, cloneCol, clones);
          var i :| 0 <= i < |init| && init[i][cellCol] in clones &&
                   done[k] == WithClone(init[i], cellCol, cloneCol, clones);
          assert r[k] == done[k];
          assert rows[i] == init[i];
        } else {
          assert r[k] == WithClone(rows[last], cellCol, cloneCol, clones);
        }
      }
    }
  }

  /** With distinct cell and clone columns, the joined rows keep their cells:
      a cell occurs among them exactly when it occurs in the input and has a clone. */
  lemma JoinCloneCells(rows: seq<Row>, cellCol: string, cloneCol: string, clones: map<string, string>, c: string)
    requires HasColumn(rows, cellCol) && cellCol != cloneCol
    ensures c in Column(JoinClone(rows, cellCol, cloneCol, clones), cellCol) <==>
            c in Column(rows, cellCol) && c in clones
  {
    var r := JoinClone(rows, cellCol, cloneCol, clones);
    JoinCloneRows(rows, cellCol, cloneCol, clones);
    if c in Column(r, cellCol) {
      var k :| 0 <= k < |r| && r[k][cellCol] == c;
      assert JoinedFrom(r[k], rows, cellCol, cloneCol, clones);
      var i :| 0 <= i < |rows| && rows[i][cellCol] in clones && r[k] == WithClone(rows[i], cellCol, cloneCol, clones);
      assert Column(rows, cellCol)[i] == c;
    }
    if c in Column(rows, cellCol) && c in clones {
      var i :| 0 <= i < |rows| && rows[i][cellCol] == c;
      var row := WithClone(rows[i], cellCol, cloneCol, clones);
      assert row in r;
      var k :| 0 <= k < |r| && r[k] == row;
      assert Column(r, cellCol)[k] == c;
    }
  }

  /** All joined rows of one cell carry the same clone: the one for that cell. */
  lemma JoinCloneSameCell(rows: seq<Row>, cellCol: string, cloneCol: string, clones: map<string, string>, k: nat)
    requires HasColumn(rows, cellCol) && cellCol != cloneCol
    requires k < |JoinClone(rows, cellCol, cloneCol, clones)|
    ensures JoinClone(rows, cellCol, cloneCol, clones)[k][cellCol] in clones
    ensures JoinClone(rows, cellCol, cloneCol, clones)[k][cloneCol] ==
            clones[JoinClone(rows, cellCol, cloneCol, clones)[k][cellCol]]
  {
    var r := JoinClone(rows, cellCol, cloneCol, clones);
    JoinCloneRows(rows, cellCol, cloneCol, clones);
    assert JoinedFrom(r[k], rows, cellCol, cloneCol, clones);
  }

  // ---------------------------------------------------------------------------
  // Appending a sub-clone label to the clone column.

  /** `row[clone] + '_' + label`, every other column unchanged. */
  function Suffixed(row: Row, cloneCol: string, suffix: string): (r: Row)
    requires cloneCol in row
  {
    row[cloneCol := row[cloneCol] + "_" + suffix]
  }

  /** Keep the rows whose cell has a label, and append that label to their
      clone (`df.loc[cell in labels]`, then `df[clone] + '_' + label`). */
  function Relabel(rows: seq<Row>, cellCol: string, cloneCol: string, labels: map<string, string>): (r: seq<Row>)
    requires HasColumn(rows, cellCol) && HasColumn(rows, cloneCol)
    ensures |r| <= |rows|
  {
    if rows == [] then []
    else
      var init := rows[..|rows| - 1];
      var last := rows[|rows| - 1];
      var done := Relabel(init, cellCol, cloneCol, labels);
      if last[cellCol] in labels then done + [Suffixed(last, cloneCol, labels[last[cellCol]])]
      else done
  }

  /** `out` is some input row with a labelled cell, suffixed with its label. */
  predicate SuffixedFrom(out: Row, rows: seq<Row>, cellCol: string, cloneCol: string, labels: map<string, string>)
    requires HasColumn(rows, cellCol) && HasColumn(rows, cloneCol)
  {
    exists i :: 0 <= i < |rows| && rows[i][cellCol] in labels &&
                out == Suffixed(rows[i], cloneCol, labels[rows[i][cellCol]])
  }

  /** Every output row is an input row with a labelled cell, suffixed with
      that label; every such input row is in the output. */
  lemma {:induction false} RelabelRows(rows: seq<Row>, cellCol: string, cloneCol: string, labels: map<string, string>)
    requires HasColumn(rows, cellCol) && HasColumn(rows, cloneCol)
    ensures forall k :: 0 <= k < |Relabel(rows, cellCol, cloneCol, labels)| ==>
              SuffixedFrom(Relabel(rows, cellCol, cloneCol, labels)[k], rows, cellCol, cloneCol, labels)
    ensures forall i :: 0 <= i < |rows| && rows[i][cellCol] in labels ==>
              Suffixed(rows[i], cloneCol, labels[rows[i][cellCol]]) in Relabel(rows, cellCol, cloneCol, labels)
  {
    if rows != [] {
      var init := rows[..|rows| - 1];
      var last := |rows| - 1;
      RelabelRows(init, cellCol, cloneCol, labels);
      assert forall i :: 0 <= i < |init| ==> init[i] == rows[i];
      var done := Relabel(init, cellCol, cloneCol, labels);
      var r := Relabel(rows, cellCol, cloneCol, labels);
      forall k | 0 <= k < |r| ensures SuffixedFrom(r[k], rows, cellCol, cloneCol, labels) {
        if k < |done| {
          assert SuffixedFrom(done[k], init, cellCol, cloneCol, labels);
          var i :| 0 <= i < |init| && init[i][cellCol] in labels &&
                   done[k] == Suffixed(init[i], cloneCol, labels[init[i][cellCol]]);
          assert r[k] == done[k];
          assert rows[i] == init[i];
        } else {
          assert r[k] == Suffixed(rows[last], cloneCol, labels[rows[last][cellCol]]);
        }
      }
    }
  }

  /** Relabelling works row by row: it keeps the row order. */
  lemma {:induction false} RelabelAppend(a: seq<Row>, b: seq<Row>, cellCol: string, cloneCol: string,
                                         labels: map<string, string>)
    requires HasColumn(a, cellCol) && HasColumn(a, cloneCol)
    requires HasColumn(b, cellCol) && HasColumn(b, cloneCol)
    ensures HasColumn(a + b, cellCol) && HasColumn(a + b, cloneCol)
    ensures Relabel(a + b, cellCol, cloneCol, labels) ==
            Relabel(a, cellCol, cloneCol, labels) + Relabel(b, cellCol, cloneCol, labels)
  {
    if b == [] {
      assert a + b == a;
    } else {
      var b' := b[..|b| - 1];
      assert (a + b)[..|a + b| - 1] == a + b';
      assert (a + b)[|a + b| - 1] == b[|b| - 1];
      RelabelAppend(a, b', cellCol, cloneCol, labels);
    }
  }

  /** Relabelling keeps every row's columns, so a valid table stays valid. */
  lemma RelabelValid(t: Table, cellCol: string, cloneCol: string, labels: map<string, string>)
    requires Valid(t) && cellCol in t.header && cloneCol in t.header
    ensures HasColumn(t.rows, cellCol) && HasColumn(t.rows, cloneCol)
    ensures Valid(Table(t.header, Relabel(t.rows, cellCol, cloneCol, labels)))
  {
    HeaderColumn(t, cellCol);
    HeaderColumn(t, cloneCol);
    RelabelRows(t.rows, cellCol, cloneCol, labels);
    var r := Relabel(t.rows, cellCol, cloneCol, labels);
    forall k | 0 <= k < |r| ensures r[k].Keys == set c | c in t.header {
      assert SuffixedFrom(r[k], t.rows, cellCol, cloneCol, labels);
      var i :| 0 <= i < |t.rows| && t.rows[i][cellCol] in labels &&
               r[k] == Suffixed(t.rows[i], cloneCol, labels[t.rows[i][cellCol]]);
      assert r[k].Keys == t.rows[i].Keys;
    }
  }
}
