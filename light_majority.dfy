/** scripts/light_majority.py: heavy-chain clones are split by the light chains
    of their cells. Each light row gets a VJJL (V gene, J gene, junction
    length) and the clone of its cell; every clone elects its most frequent
    VJJL; a cell carrying its clone's majority VJJL is labelled with it, any
    other cell with all its VJJLs joined by `;`; heavy rows get `clone_<label>`.
    The cell and clone column names are parameters. */
module LightMajority {
  import opened Results
  import opened Strings
  import opened GeneCalls
  import opened Tables

  const VCall := "V_CALL"
  const JCall := "J_CALL"
  const JunctionCol := "JUNCTION"
  /** The column the script adds to the light rows. */
  const VjjlCol := "VJJL"

  // ---------------------------------------------------------------------------
  // The VJJL column

  /** `light_df['VJJL'] = ...`: every light row with its VJJL added. */
  function WithVjjl(rows: seq<Row>): (r: seq<Row>)
    requires HasColumn(rows, VCall) && HasColumn(rows, JCall) && HasColumn(rows, JunctionCol)
    ensures |r| == |rows|
    ensures forall k :: 0 <= k < |rows| ==> r[k].Keys == rows[k].Keys + {VjjlCol}
  {
    seq(|rows|, k requires 0 <= k < |rows| =>
      rows[k][VjjlCol := Vjjl(rows[k][VCall], rows[k][JCall], rows[k][JunctionCol])])
  }

  /** The VJJL of a row is its V gene, `,`, J gene, `,`, junction length, and
      neither allele suffixes nor secondary calls change it. */
  lemma VjjlOfRow(rows: seq<Row>, k: nat, allele: string, rest: string)
    requires HasColumn(rows, VCall) && HasColumn(rows, JCall) && HasColumn(rows, JunctionCol)
    requires k < |rows|
    ensures WithVjjl(rows)[k][VjjlCol] ==
            GeneName(rows[k][VCall]) + "," + GeneName(rows[k][JCall]) + "," + NatToString(|rows[k][JunctionCol]|)
    ensures WithVjjl(rows)[k][VjjlCol] ==
            Vjjl(rows[k][VCall] + "*" + allele, rows[k][JCall] + "," + rest, rows[k][JunctionCol])
  {
    AlleleIgnored(rows[k][VCall], allele);
    SecondaryCallsIgnored(rows[k][JCall], rest);
  }

  // ---------------------------------------------------------------------------
  // Grouping

  /** `list(df.groupby(keyCol).get_group(key)[valCol])`: the values of `valCol`
      on the rows whose `keyCol` is `key`, in row order. */
  function ValuesWhere(rows: seq<Row>, keyCol: string, key: string, valCol: string): (vs: seq<string>)
    requires HasColumn(rows, keyCol) && HasColumn(rows, valCol)
    ensures |vs| <= |rows|
  {
    if rows == [] then []
    else
      var init := rows[..|rows| - 1];
      var last := rows[|rows| - 1];
      ValuesWhere(init, keyCol, key, valCol) + if last[keyCol] == key then [last[valCol]] else []
  }

  /** Grouping works row by row: the values of `a + b` are those of `a`
      followed by those of `b`, duplicates included. */
  lemma {:induction false} ValuesWhereAppend(a: seq<Row>, b: seq<Row>, keyCol: string, key: string, valCol: string)
    requires HasColumn(a, keyCol) && HasColumn(a, valCol)
    requires HasColumn(b, keyCol) && HasColumn(b, valCol)
    ensures HasColumn(a + b, keyCol) && HasColumn(a + b, valCol)
    ensures ValuesWhere(a + b, keyCol, key, valCol) ==
            ValuesWhere(a, keyCol, key, valCol) + ValuesWhere(b, keyCol, key, valCol)
  {
    if b == [] {
      assert a + b == a;
    } else {
      var b' := b[..|b| - 1];
      assert (a + b)[..|a + b| - 1] == a + b';
      assert (a + b)[|a + b| - 1] == b[|b| - 1];
      ValuesWhereAppend(a, b', keyCol, key, valCol);
    }
  }

  /** One row gives its value when it has the key, and nothing otherwise. */
  lemma ValuesWhereOne(r: Row, keyCol: string, key: string, valCol: string)
    requires keyCol in r && valCol in r
    ensures ValuesWhere([r], keyCol, key, valCol) == if r[keyCol] == key then [r[valCol]] else []
  {
    assert [r][..0] == [];
  }

  /** A value is in the group exactly when some row of the group holds it. */
  lemma {:induction false} ValuesWhereMembers(rows: seq<Row>, keyCol: string, key: string, valCol: string, v: string)
    requires HasColumn(rows, keyCol) && HasColumn(rows, valCol)
    ensures v in ValuesWhere(rows, keyCol, key, valCol) <==>
            exists i :: 0 <= i < |rows| && rows[i][keyCol] == key && rows[i][valCol] == v
  {
    if rows != [] {
      var init := rows[..|rows| - 1];
      ValuesWhereMembers(init, keyCol, key, valCol, v);
      assert forall i :: 0 <= i < |init| ==> init[i] == rows[i];
    }
  }

  /** A group is non-empty exactly when some row has its key. */
  lemma {:induction false} ValuesWhereNonEmpty(rows: seq<Row>, keyCol: string, key: string, valCol: string)
    requires HasColumn(rows, keyCol) && HasColumn(rows, valCol)
    ensures |ValuesWhere(rows, keyCol, key, valCol)| > 0 <==> key in Column(rows, keyCol)
  {
    if rows != [] {
      var init := rows[..|rows| - 1];
      ValuesWhereNonEmpty(init, keyCol, key, valCol);
      assert Column(rows, keyCol) == Column(init, keyCol) + [rows[|rows| - 1][keyCol]];
    }
  }

  // ---------------------------------------------------------------------------
  // The majority VJJL of a clone

  function Count(xs: seq<string>, x: string): nat
  {
    multiset(xs)[x]
  }

  /** The positions of the rows of a group that hold `x`. */
  function RowsHolding(rows: seq<Row>, keyCol: string, key: string, valCol: string, x: string): set<nat>
    requires HasColumn(rows, keyCol) && HasColumn(rows, valCol)
  {
    set i: nat | i < |rows| && rows[i][keyCol] == key && rows[i][valCol] == x
  }

  lemma RowsHoldingSnoc(rows: seq<Row>, keyCol: string, key: string, valCol: string, x: string)
    requires HasColumn(rows, keyCol) && HasColumn(rows, valCol) && |rows| > 0
    ensures |RowsHolding(rows, keyCol, key, valCol, x)| ==
            |RowsHolding(rows[..|rows| - 1], keyCol, key, valCol, x)| +
            if rows[|rows| - 1][keyCol] == key && rows[|rows| - 1][valCol] == x then 1 else 0
  {
    var n := |rows| - 1;
    var s := RowsHolding(rows, keyCol, key, valCol, x);
    var s' := RowsHolding(rows[..n], keyCol, key, valCol, x);
    assert s' == s - {n};
    if rows[n][keyCol] == key && rows[n][valCol] == x {
      assert s == s' + {n};
    } else {
      assert s == s';
    }
  }

  lemma CountSnoc(rows: seq<Row>, keyCol: string, key: string, valCol: string, x: string)
    requires HasColumn(rows, keyCol) && HasColumn(rows, valCol) && |rows| > 0
    ensures Count(ValuesWhere(rows, keyCol, key, valCol), x) ==
            Count(ValuesWhere(rows[..|rows| - 1], keyCol, key, valCol), x) +
            if rows[|rows| - 1][keyCol] == key && rows[|rows| - 1][valCol] == x then 1 else 0
  {
    var n := |rows| - 1;
    var tail := if rows[n][keyCol] == key then [rows[n][valCol]] else [];
    assert ValuesWhere(rows, keyCol, key, valCol) == ValuesWhere(rows[..n], keyCol, key, valCol) + tail;
    assert multiset(ValuesWhere(rows, keyCol, key, valCol)) ==
           multiset(ValuesWhere(rows[..n], keyCol, key, valCol)) + multiset(tail);
  }

  /** `xs.count(x)` on a group's values is the number of rows of the group
      that hold `x`: grouping neither merges nor drops duplicates. */
  lemma {:induction false} ValuesWhereCount(rows: seq<Row>, keyCol: string, key: string, valCol: string, x: string)
    requires HasColumn(rows, keyCol) && HasColumn(rows, valCol)
    ensures Count(ValuesWhere(rows, keyCol, key, valCol), x) == |RowsHolding(rows, keyCol, key, valCol, x)|
  {
    if rows == [] {
      assert RowsHolding(rows, keyCol, key, valCol, x) == {};
    } else {
      ValuesWhereCount(rows[..|rows| - 1], keyCol, key, valCol, x);
      CountSnoc(rows, keyCol, key, valCol, x);
      RowsHoldingSnoc(rows, keyCol, key, valCol, x);
    }
  }

  /** The position `max(xs[..k], key = xs.count)` picks: a value of highest
      count in `xs`, and of those the first one. */
  function ArgMax(xs: seq<string>, k: nat): (m: nat)
    requires 0 < k <= |xs|
    ensures m < k
    ensures forall i :: 0 <= i < k ==> Count(xs, xs[i]) <= Count(xs, xs[m])
    ensures forall i :: 0 <= i < m ==> Count(xs, xs[i]) < Count(xs, xs[m])
  {
    if k == 1 then 0
    else
      var m := ArgMax(xs, k - 1);
      if Count(xs, xs[k - 1]) > Count(xs, xs[m]) then k - 1 else m
  }

  /** `max(xs, key = xs.count)`. */
  function Majority(xs: seq<string>): (m: string)
    requires |xs| > 0
  {
    xs[ArgMax(xs, |xs|)]
  }

  /** The majority occurs in the list, no value occurs more often, and every
      value met before its first occurrence occurs strictly less often: ties
      go to the value that comes first. */
  lemma MajorityFirstMax(xs: seq<string>)
    requires |xs| > 0
    ensures Majority(xs) in xs
    ensures forall x :: Count(xs, x) <= Count(xs, Majority(xs))
    ensures exists m :: 0 <= m < |xs| && xs[m] == Majority(xs) &&
                        forall i :: 0 <= i < m ==> Count(xs, xs[i]) < Count(xs, Majority(xs))
  {
    var m := ArgMax(xs, |xs|);
    forall x ensures Count(xs, x) <= Count(xs, Majority(xs)) {
      if x in xs {
        var i :| 0 <= i < |xs| && xs[i] == x;
      }
    }
  }

  /** A value found in more than half of the list is its majority. */
  lemma StrictMajority(xs: seq<string>, x: string)
    requires |xs| > 0 && 2 * Count(xs, x) > |xs|
    ensures Majority(xs) == x
  {
    MajorityFirstMax(xs);
    var m := Majority(xs);
    if m != x {
      assert multiset{x} + multiset{m} <= multiset(xs) by {
        assert x in xs && m in xs;
      }
      var mx := multiset(xs);
      assert mx[x] + mx[m] <= |mx| by {
        CountsBound(mx, x, m);
      }
    }
  }

  lemma CountsBound(ms: multiset<string>, x: string, y: string)
    requires x != y
    ensures ms[x] + ms[y] <= |ms|
  {
    var a := multiset{}[x := ms[x]];
    var b := multiset{}[y := ms[y]];
    assert a + b <= ms;
    assert |a| == ms[x] by { MultiplicityCard(x, ms[x]); }
    assert |b| == ms[y] by { MultiplicityCard(y, ms[y]); }
    assert |a + b| <= |ms| by { SubMultisetCard(a + b, ms); }
  }

  lemma {:induction false} MultiplicityCard(x: string, n: nat)
    ensures |multiset{}[x := n]| == n
  {
    if n > 0 {
      MultiplicityCard(x, n - 1);
      assert multiset{}[x := n] == multiset{}[x := n - 1] + multiset{x};
    }
  }

  lemma SubMultisetCard(a: multiset<string>, b: multiset<string>)
    requires a <= b
    ensures |a| <= |b|
  {
    assert b == a + (b - a);
  }

  // ---------------------------------------------------------------------------
  // Cell labels

  /** The light rows after the join carry the VJJL and clone columns. */
  predicate Grouped(rows: seq<Row>, cellCol: string, cloneCol: string)
  {
    HasColumn(rows, cellCol) && HasColumn(rows, cloneCol) && HasColumn(rows, VjjlCol)
  }

  /** `majority_cluster_dict[c]`: the majority VJJL of the rows of clone `c`. */
  function CloneMajority(rows: seq<Row>, cloneCol: string, c: string): (m: string)
    requires HasColumn(rows, cloneCol) && HasColumn(rows, VjjlCol)
    requires c in Column(rows, cloneCol)
  {
    ValuesWhereNonEmpty(rows, cloneCol, c, VjjlCol);
    Majority(ValuesWhere(rows, cloneCol, c, VjjlCol))
  }

  /** The majority of a clone is the VJJL of one of its rows, and no VJJL is
      held by more rows of the clone. */
  lemma CloneMajorityRows(rows: seq<Row>, cloneCol: string, c: string, v: string)
    requires HasColumn(rows, cloneCol) && HasColumn(rows, VjjlCol)
    requires c in Column(rows, cloneCol)
    ensures exists i :: 0 <= i < |rows| && rows[i][cloneCol] == c && rows[i][VjjlCol] == CloneMajority(rows, cloneCol, c)
    ensures |RowsHolding(rows, cloneCol, c, VjjlCol, v)| <=
            |RowsHolding(rows, cloneCol, c, VjjlCol, CloneMajority(rows, cloneCol, c))|
  {
    var vs := ValuesWhere(rows, cloneCol, c, VjjlCol);
    var m := CloneMajority(rows, cloneCol, c);
    ValuesWhereNonEmpty(rows, cloneCol, c, VjjlCol);
    MajorityFirstMax(vs);
    ValuesWhereMembers(rows, cloneCol, c, VjjlCol, m);
    ValuesWhereCount(rows, cloneCol, c, VjjlCol, v);
    ValuesWhereCount(rows, cloneCol, c, VjjlCol, m);
  }

  /** `cluster_dict[x]`: the clone of cell `x` is the clone of its first row;
      the cell is labelled with that clone's majority VJJL if one of its rows
      has it, otherwise with its own VJJLs joined by `;`. */
  function CellLabel(rows: seq<Row>, cellCol: string, cloneCol: string, x: string): (text: string)
    requires Grouped(rows, cellCol, cloneCol)
    requires x in Column(rows, cellCol)
  {
    var vs := ValuesWhere(rows, cellCol, x, VjjlCol);
    var m := CloneMajority(rows, cloneCol, CellClone(rows, cellCol, cloneCol, x));
    if m in vs then m else Join(vs, ';')
  }

  /** The clone of cell `x`: the clone of its first row. */
  function CellClone(rows: seq<Row>, cellCol: string, cloneCol: string, x: string): (c: string)
    requires Grouped(rows, cellCol, cloneCol)
    requires x in Column(rows, cellCol)
    ensures c in Column(rows, cloneCol)
    ensures exists i :: 0 <= i < |rows| && rows[i][cellCol] == x && rows[i][cloneCol] == c
  {
    CloneOfSomeRow(rows, cellCol, cloneCol, x);
    ValuesWhereMembers(rows, cellCol, x, cloneCol, ValuesWhere(rows, cellCol, x, cloneCol)[0]);
    ValuesWhere(rows, cellCol, x, cloneCol)[0]
  }

  /** A cell carrying its clone's majority VJJL is labelled with it; any
      other cell gets a label that splits back into its own VJJLs, row by
      row, provided no VJJL contains `;`. */
  lemma LabelOfCell(rows: seq<Row>, cellCol: string, cloneCol: string, x: string)
    requires Grouped(rows, cellCol, cloneCol)
    requires x in Column(rows, cellCol)
    requires forall k :: 0 <= k < |rows| ==> ';' !in rows[k][VjjlCol]
    ensures CloneMajority(rows, cloneCol, CellClone(rows, cellCol, cloneCol, x)) in ValuesWhere(rows, cellCol, x, VjjlCol) ==>
              CellLabel(rows, cellCol, cloneCol, x) == CloneMajority(rows, cloneCol, CellClone(rows, cellCol, cloneCol, x))
    ensures CloneMajority(rows, cloneCol, CellClone(rows, cellCol, cloneCol, x)) !in ValuesWhere(rows, cellCol, x, VjjlCol) ==>
              Split(CellLabel(rows, cellCol, cloneCol, x), ';') == ValuesWhere(rows, cellCol, x, VjjlCol)
  {
    var vs := ValuesWhere(rows, cellCol, x, VjjlCol);
    ValuesWhereNonEmpty(rows, cellCol, x, VjjlCol);
    forall k | 0 <= k < |vs| ensures ';' !in vs[k] {
      ValuesWhereMembers(rows, cellCol, x, VjjlCol, vs[k]);
    }
    SplitJoin(vs, ';');
  }

  lemma CloneOfSomeRow(rows: seq<Row>, cellCol: string, cloneCol: string, x: string)
    requires Grouped(rows, cellCol, cloneCol)
    requires x in Column(rows, cellCol)
    ensures |ValuesWhere(rows, cellCol, x, cloneCol)| > 0
    ensures ValuesWhere(rows, cellCol, x, cloneCol)[0] in Column(rows, cloneCol)
  {
    ValuesWhereNonEmpty(rows, cellCol, x, cloneCol);
    var c := ValuesWhere(rows, cellCol, x, cloneCol)[0];
    ValuesWhereMembers(rows, cellCol, x, cloneCol, c);
    var i :| 0 <= i < |rows| && rows[i][cellCol] == x && rows[i][cloneCol] == c;
    assert Column(rows, cloneCol)[i] == c;
  }

  /** `cluster_dict`: a label for every cell of the light rows. */
  function CellLabels(rows: seq<Row>, cellCol: string, cloneCol: string): (labels: map<string, string>)
    requires Grouped(rows, cellCol, cloneCol)
    ensures forall x :: x in labels <==> x in Column(rows, cellCol)
  {
    map x | x in Column(rows, cellCol) :: CellLabel(rows, cellCol, cloneCol, x)
  }

  /** Every `;`-separated part of a cell's label is a VJJL of one of the
      cell's rows, provided no VJJL contains `;`. */
  lemma LabelParts(rows: seq<Row>, cellCol: string, cloneCol: string, x: string)
    requires Grouped(rows, cellCol, cloneCol)
    requires x in Column(rows, cellCol)
    requires forall k :: 0 <= k < |rows| ==> ';' !in rows[k][VjjlCol]
    ensures forall p :: p in Split(CellLabel(rows, cellCol, cloneCol, x), ';') ==>
              exists i :: 0 <= i < |rows| && rows[i][cellCol] == x && rows[i][VjjlCol] == p
  {
    var vs := ValuesWhere(rows, cellCol, x, VjjlCol);
    ValuesWhereNonEmpty(rows, cellCol, x, VjjlCol);
    forall p | p in vs ensures exists i :: 0 <= i < |rows| && rows[i][cellCol] == x && rows[i][VjjlCol] == p {
      ValuesWhereMembers(rows, cellCol, x, VjjlCol, p);
    }
    forall k | 0 <= k < |vs| ensures ';' !in vs[k] {
      ValuesWhereMembers(rows, cellCol, x, VjjlCol, vs[k]);
    }
    var m := CloneMajority(rows, cloneCol, CellClone(rows, cellCol, cloneCol, x));
    if m in vs {
      SplitJoin([m], ';');
      assert Join([m], ';') == m;
    } else {
      SplitJoin(vs, ';');
    }
  }

  // ---------------------------------------------------------------------------
  // The script

  /** Every column the script reads exists: V, J and junction on the light
      rows, cell and clone in the heavy table, the cell in the light table
      once the VJJL column is added. */
  predicate MajorityReadable(heavy: Table, light: Table, cellCol: string, cloneCol: string)
  {
    HasColumn(light.rows, VCall) && HasColumn(light.rows, JCall) && HasColumn(light.rows, JunctionCol) &&
    cloneCol in heavy.header && cellCol in heavy.header && (cellCol in light.header || cellCol == VjjlCol)
  }

  /** The whole script after the tables are read: `Failure` where it stops (a
      column it reads is missing), otherwise the heavy table it writes. */
  function CorrectByMajority(heavy: Table, light: Table, cellCol: string, cloneCol: string): (r: Result<Table>)
    requires Valid(heavy) && Valid(light)
    ensures r.Success? <==> MajorityReadable(heavy, light, cellCol, cloneCol)
  {
    if !HasColumn(light.rows, VCall) then Failure(MissingColumn(VCall))
    else if !HasColumn(light.rows, JCall) then Failure(MissingColumn(JCall))
    else if !HasColumn(light.rows, JunctionCol) then Failure(MissingColumn(JunctionCol))
    else if cloneCol !in heavy.header then Failure(MissingColumn(cloneCol))
    else if cellCol !in heavy.header then Failure(MissingColumn(cellCol))
    else if cellCol !in light.header && cellCol != VjjlCol then Failure(MissingColumn(cellCol))
    else
      HeaderColumn(heavy, cellCol);
      HeaderColumn(heavy, cloneCol);
      Success(Table(heavy.header, Relabel(heavy.rows, cellCol, cloneCol, MajorityLabels(heavy, light, cellCol, cloneCol))))
  }

  /** `cluster_dict` of the script. */
  function MajorityLabels(heavy: Table, light: Table, cellCol: string, cloneCol: string): map<string, string>
    requires Valid(heavy) && Valid(light) && MajorityReadable(heavy, light, cellCol, cloneCol)
  {
    HeaderColumn(heavy, cellCol);
    HeaderColumn(heavy, cloneCol);
    HeaderColumnTagged(light, cellCol);
    CellLabels(JoinedLight(heavy.rows, WithVjjl(light.rows), cellCol, cloneCol), cellCol, cloneCol)
  }

  lemma HeaderColumnTagged(light: Table, col: string)
    requires Valid(light)
    requires HasColumn(light.rows, VCall) && HasColumn(light.rows, JCall) && HasColumn(light.rows, JunctionCol)
    requires col in light.header || col == VjjlCol
    ensures HasColumn(WithVjjl(light.rows), col) && HasColumn(WithVjjl(light.rows), VjjlCol)
  {
    if col in light.header {
      HeaderColumn(light, col);
    }
  }

  /** The light rows of cells found in the heavy table, each with the clone of
      the cell's last heavy row. */
  function JoinedLight(heavy: seq<Row>, tagged: seq<Row>, cellCol: string, cloneCol: string): (r: seq<Row>)
    requires HasColumn(heavy, cellCol) && HasColumn(heavy, cloneCol)
    requires HasColumn(tagged, cellCol) && HasColumn(tagged, VjjlCol)
    ensures Grouped(r, cellCol, cloneCol)
  {
    var r := JoinClone(tagged, cellCol, cloneCol, CloneDict(heavy, cellCol, cloneCol));
    JoinCloneRows(tagged, cellCol, cloneCol, CloneDict(heavy, cellCol, cloneCol));
    forall k | 0 <= k < |r| ensures VjjlCol in r[k] {
      assert JoinedFrom(r[k], tagged, cellCol, cloneCol, CloneDict(heavy, cellCol, cloneCol));
    }
    r
  }

  /** With distinct cell and clone columns, every joined row of a cell carries
      the clone of that cell's last heavy row: all rows of a cell share one
      clone, so the clone of its first row is the clone of each. */
  lemma OneClonePerCell(heavy: seq<Row>, tagged: seq<Row>, cellCol: string, cloneCol: string, k: nat, h: nat)
    requires HasColumn(heavy, cellCol) && HasColumn(heavy, cloneCol)
    requires HasColumn(tagged, cellCol) && HasColumn(tagged, VjjlCol)
    requires cellCol != cloneCol
    requires k < |JoinedLight(heavy, tagged, cellCol, cloneCol)|
    requires h < |heavy| && heavy[h][cellCol] == JoinedLight(heavy, tagged, cellCol, cloneCol)[k][cellCol]
    requires forall i :: h < i < |heavy| ==> heavy[i][cellCol] != heavy[h][cellCol]
    ensures JoinedLight(heavy, tagged, cellCol, cloneCol)[k][cloneCol] == heavy[h][cloneCol]
  {
    JoinCloneSameCell(tagged, cellCol, cloneCol, CloneDict(heavy, cellCol, cloneCol), k);
    CloneDictLastRow(heavy, cellCol, cloneCol, h);
  }

  /** Adding the VJJL column leaves every other column as it was. */
  lemma TaggedColumn(rows: seq<Row>, col: string)
    requires HasColumn(rows, VCall) && HasColumn(rows, JCall) && HasColumn(rows, JunctionCol)
    requires HasColumn(rows, col) && col != VjjlCol
    ensures HasColumn(WithVjjl(rows), col)
    ensures Column(WithVjjl(rows), col) == Column(rows, col)
  {
  }

  /** The cells labelled are exactly the light cells found in the heavy table
      (the cell column being neither the clone column nor the VJJL column). */
  lemma MajorityLabelledCells(heavy: Table, light: Table, cellCol: string, cloneCol: string, x: string)
    requires Valid(heavy) && Valid(light) && MajorityReadable(heavy, light, cellCol, cloneCol)
    requires cellCol != cloneCol && cellCol != VjjlCol
    ensures HasColumn(heavy.rows, cellCol) && HasColumn(light.rows, cellCol)
    ensures x in MajorityLabels(heavy, light, cellCol, cloneCol) <==>
            x in Column(light.rows, cellCol) && x in Column(heavy.rows, cellCol)
  {
    HeaderColumn(heavy, cellCol);
    HeaderColumn(heavy, cloneCol);
    HeaderColumn(light, cellCol);
    HeaderColumnTagged(light, cellCol);
    var tagged := WithVjjl(light.rows);
    TaggedColumn(light.rows, cellCol);
    JoinCloneCells(tagged, cellCol, cloneCol, CloneDict(heavy.rows, cellCol, cloneCol), x);
  }

  /** The table written: the heavy columns, and exactly the heavy rows of
      labelled cells, each with its clone suffixed by `_` and the cell's
      label, every other column unchanged. */
  lemma CorrectByMajorityOutput(heavy: Table, light: Table, cellCol: string, cloneCol: string, out: Table)
    requires Valid(heavy) && Valid(light)
    requires CorrectByMajority(heavy, light, cellCol, cloneCol) == Success(out)
    ensures MajorityReadable(heavy, light, cellCol, cloneCol)
    ensures HasColumn(heavy.rows, cellCol) && HasColumn(heavy.rows, cloneCol)
    ensures out.header == heavy.header && Valid(out)
    ensures forall k :: 0 <= k < |out.rows| ==>
              SuffixedFrom(out.rows[k], heavy.rows, cellCol, cloneCol, MajorityLabels(heavy, light, cellCol, cloneCol))
    ensures forall i :: 0 <= i < |heavy.rows| && heavy.rows[i][cellCol] in MajorityLabels(heavy, light, cellCol, cloneCol) ==>
              Suffixed(heavy.rows[i], cloneCol, MajorityLabels(heavy, light, cellCol, cloneCol)[heavy.rows[i][cellCol]])
                in out.rows
  {
    HeaderColumn(heavy, cellCol);
    HeaderColumn(heavy, cloneCol);
    var labels := MajorityLabels(heavy, light, cellCol, cloneCol);
    assert out.rows == Relabel(heavy.rows, cellCol, cloneCol, labels);
    RelabelRows(heavy.rows, cellCol, cloneCol, labels);
    RelabelValid(heavy, cellCol, cloneCol, labels);
  }
}
