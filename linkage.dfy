/** `clusterLinkage` of scripts/light_cluster.py: cells are grouped by a group
    value, then the groups are folded, in one pass, into numbered clusters.
    A group that shares a cell with an existing cluster is appended to the
    FIRST such cluster; otherwise it becomes a new cluster numbered by its
    position. Existing clusters are never joined to each other, and a cell
    that ends up in several clusters is labelled with the last of them. */
module Linkage {
  import opened Results
  import opened Sequences

  type Cell = string
  type Group = string

  /** One entry of `cluster_dict`: its integer key and its list of cells. */
  datatype Cluster = Cluster(id: nat, cells: seq<Cell>)

  // ---------------------------------------------------------------------------
  // initial_dict = {group: [cells in input order]}

  /** The keys of `initial_dict`: the group values in order of first occurrence. */
  function GroupOrder(pairs: seq<(Cell, Group)>): (gs: seq<Group>)
    ensures Distinct(gs)
    ensures forall g :: g in gs <==> exists k :: 0 <= k < |pairs| && pairs[k].1 == g
  {
    if pairs == [] then []
    else
      var init := pairs[..|pairs| - 1];
      var prev := GroupOrder(init);
      var g := pairs[|pairs| - 1].1;
      assert forall k :: 0 <= k < |init| ==> init[k] == pairs[k];
      if g in prev then prev else prev + [g]
  }

  /** `initial_dict[g]`: the cells paired with `g`, in input order. */
  function Members(pairs: seq<(Cell, Group)>, g: Group): (cs: seq<Cell>)
    ensures forall c :: c in cs <==> (c, g) in pairs
  {
    if pairs == [] then []
    else
      var init := pairs[..|pairs| - 1];
      var last := pairs[|pairs| - 1];
      assert pairs == init + [last];
      if last.1 == g then Members(init, g) + [last.0] else Members(init, g)
  }

  lemma MembersSnoc(pairs: seq<(Cell, Group)>, p: (Cell, Group), g: Group)
    ensures Members(pairs + [p], g) == Members(pairs, g) + (if p.1 == g then [p.0] else [])
  {
    assert (pairs + [p])[..|pairs|] == pairs;
  }

  lemma GroupOrderSnoc(pairs: seq<(Cell, Group)>, p: (Cell, Group))
    ensures GroupOrder(pairs + [p]) == GroupOrder(pairs) + (if p.1 in GroupOrder(pairs) then [] else [p.1])
  {
    assert (pairs + [p])[..|pairs|] == pairs;
  }

  lemma {:induction false} UnseenGroupHasNoMembers(pairs: seq<(Cell, Group)>, g: Group)
    requires g !in GroupOrder(pairs)
    ensures Members(pairs, g) == []
  {
    if pairs != [] {
      var init := pairs[..|pairs| - 1];
      assert pairs == init + [pairs[|pairs| - 1]];
      GroupOrderSnoc(init, pairs[|pairs| - 1]);
      MembersSnoc(init, pairs[|pairs| - 1], g);
      UnseenGroupHasNoMembers(init, g);
    }
  }

  /** The values of `initial_dict`, in key order. */
  function InitialGroups(pairs: seq<(Cell, Group)>): (groups: seq<seq<Cell>>)
    ensures |groups| == |GroupOrder(pairs)|
  {
    var order := GroupOrder(pairs);
    seq(|order|, i requires 0 <= i < |order| => Members(pairs, order[i]))
  }

  // ---------------------------------------------------------------------------
  // cluster_dict: one pass over the initial groups

  /** `any(cell in g for cell in a)`. */
  predicate Shares(a: seq<Cell>, g: seq<Cell>)
  {
    exists k :: 0 <= k < |a| && a[k] in g
  }

  /** The position of the first cluster from `from` on that shares a cell with `g`. */
  function FirstSharing(cs: seq<Cluster>, g: seq<Cell>, from: nat): (j: Option<nat>)
    requires from <= |cs|
    ensures j.Some? ==> from <= j.value < |cs| && Shares(cs[j.value].cells, g) &&
                        forall k :: from <= k < j.value ==> !Shares(cs[k].cells, g)
    ensures j.None? ==> forall k :: from <= k < |cs| ==> !Shares(cs[k].cells, g)
    decreases |cs| - from
  {
    if from == |cs| then None
    else if Shares(cs[from].cells, g) then Some(from)
    else FirstSharing(cs, g, from + 1)
  }

  /** Handling group number `i` with cells `g`: it is appended to the first
      cluster it shares a cell with, or else kept as cluster `i`. */
  function Step(cs: seq<Cluster>, i: nat, g: seq<Cell>): (next: seq<Cluster>)
  {
    match FirstSharing(cs, g, 0)
    case None => cs + [Cluster(i, g)]
    case Some(j) => cs[j := Cluster(cs[j].id, cs[j].cells + g)]
  }

  /** A group that shares no cell with any cluster becomes cluster `i`;
      otherwise it is appended to the first cluster it shares a cell with. */
  lemma StepSpec(cs: seq<Cluster>, i: nat, g: seq<Cell>)
    ensures (forall k :: 0 <= k < |cs| ==> !Shares(cs[k].cells, g)) ==> Step(cs, i, g) == cs + [Cluster(i, g)]
    ensures forall j :: 0 <= j < |cs| && Shares(cs[j].cells, g) &&
                        (forall k :: 0 <= k < j ==> !Shares(cs[k].cells, g)) ==>
                        Step(cs, i, g) == cs[j := Cluster(cs[j].id, cs[j].cells + g)]
  {
    match FirstSharing(cs, g, 0)
    case None =>
    case Some(j) =>
  }

  /** `cluster_dict` after the groups `groups`, group `i` handled with key `i`;
      its keys are group positions, in increasing (= insertion) order. */
  function Merge(groups: seq<seq<Cell>>): (cs: seq<Cluster>)
    ensures forall k :: 0 <= k < |cs| ==> cs[k].id < |groups|
    ensures forall a, b :: 0 <= a < b < |cs| ==> cs[a].id < cs[b].id
  {
    if groups == [] then []
    else
      var n := |groups| - 1;
      var prev := Merge(groups[..n]);
      var r := Step(prev, n, groups[n]);
      assert forall k :: 0 <= k < |r| ==> r[k].id == (if k < |prev| then prev[k].id else n);
      r
  }

  // ---------------------------------------------------------------------------
  // assign_dict = {cell: k for k, v in cluster_dict.items() for cell in set(v)}

  /** The entries written for one cluster. */
  function CellMap(c: Cluster): (m: map<Cell, nat>)
  {
    map x | x in c.cells :: c.id
  }

  /** Inverting the clusters in order: a later cluster overwrites an earlier one. */
  function Assign(cs: seq<Cluster>): (m: map<Cell, nat>)
  {
    if cs == [] then map[] else Assign(cs[..|cs| - 1]) + CellMap(cs[|cs| - 1])
  }

  /** The result of `clusterLinkage(cells, groups)`, with `pairs` = `zip(cells, groups)`. */
  function LinkageSpec(pairs: seq<(Cell, Group)>): (labels: map<Cell, nat>)
  {
    Assign(Merge(InitialGroups(pairs)))
  }

  // ---------------------------------------------------------------------------
  // Properties of the specification

  /** Some cluster of `cs` holds cell `c`. */
  predicate InSome(cs: seq<Cluster>, c: Cell)
  {
    exists k :: 0 <= k < |cs| && c in cs[k].cells
  }

  /** Exactly the cells of the clusters receive a label. */
  lemma {:induction false} AssignDomain(cs: seq<Cluster>, c: Cell)
    ensures c in Assign(cs) <==> InSome(cs, c)
  {
    if cs != [] {
      var init := cs[..|cs| - 1];
      AssignDomain(init, c);
      assert forall k :: 0 <= k < |init| ==> init[k] == cs[k];
      if c in cs[|cs| - 1].cells {
        assert InSome(cs, c);
      }
    }
  }

  /** A cell is labelled with the last cluster, in insertion order, that holds it. */
  lemma {:induction false} AssignLast(cs: seq<Cluster>, k: nat, c: Cell)
    requires k < |cs| && c in cs[k].cells
    requires forall k' :: k < k' < |cs| ==> c !in cs[k'].cells
    ensures c in Assign(cs) && Assign(cs)[c] == cs[k].id
  {
    var init := cs[..|cs| - 1];
    if k < |cs| - 1 {
      AssignLast(init, k, c);
    }
  }

  /** Every label is the key of some cluster that holds the cell. */
  lemma {:induction false} AssignLabelIsCluster(cs: seq<Cluster>, c: Cell)
    requires c in Assign(cs)
    ensures exists k :: 0 <= k < |cs| && c in cs[k].cells && Assign(cs)[c] == cs[k].id
  {
    var init := cs[..|cs| - 1];
    if c in cs[|cs| - 1].cells {
      assert Assign(cs)[c] == cs[|cs| - 1].id;
    } else {
      AssignLabelIsCluster(init, c);
      var k :| 0 <= k < |init| && c in init[k].cells && Assign(init)[c] == init[k].id;
      assert cs[k] == init[k];
    }
  }

  /** A step adds exactly the group's cells to the clustered cells. */
  lemma StepCells(cs: seq<Cluster>, i: nat, g: seq<Cell>, c: Cell)
    ensures InSome(Step(cs, i, g), c) <==> InSome(cs, c) || c in g
  {
    var r := Step(cs, i, g);
    match FirstSharing(cs, g, 0)
    case None =>
      assert r == cs + [Cluster(i, g)];
      if InSome(cs, c) {
        var k :| 0 <= k < |cs| && c in cs[k].cells;
        assert r[k] == cs[k];
      }
      if c in g {
        assert c in r[|cs|].cells;
      }
      if InSome(r, c) {
        var k :| 0 <= k < |r| && c in r[k].cells;
        if k < |cs| { assert r[k] == cs[k]; }
      }
    case Some(j) =>
      assert r == cs[j := Cluster(cs[j].id, cs[j].cells + g)];
      if InSome(cs, c) {
        var k :| 0 <= k < |cs| && c in cs[k].cells;
        if k != j { assert r[k] == cs[k]; } else { assert c in r[j].cells; }
      }
      if c in g {
        assert c in r[j].cells;
      }
      if InSome(r, c) {
        var k :| 0 <= k < |r| && c in r[k].cells;
        if k != j { assert r[k] == cs[k]; }
      }
  }

  /** The clusters hold exactly the cells of the groups folded into them. */
  lemma {:induction false} MergeCells(groups: seq<seq<Cell>>, c: Cell)
    ensures InSome(Merge(groups), c) <==> exists k :: 0 <= k < |groups| && c in groups[k]
  {
    if groups != [] {
      var n := |groups| - 1;
      var prev := groups[..n];
      MergeCells(prev, c);
      assert Merge(groups) == Step(Merge(prev), n, groups[n]);
      StepCells(Merge(prev), n, groups[n], c);
      if exists k :: 0 <= k < |groups| && c in groups[k] {
        var k :| 0 <= k < |groups| && c in groups[k];
        if k < n {
          assert c in prev[k];
        }
      }
      if exists k :: 0 <= k < n && c in prev[k] {
        var k :| 0 <= k < n && c in prev[k];
        assert c in groups[k];
      }
    }
  }

  /** The initial groups hold exactly the cells of the input. */
  lemma InitialGroupsCells(pairs: seq<(Cell, Group)>, c: Cell)
    ensures (exists k :: 0 <= k < |InitialGroups(pairs)| && c in InitialGroups(pairs)[k]) <==>
            (exists k :: 0 <= k < |pairs| && pairs[k].0 == c)
  {
    var order := GroupOrder(pairs);
    var groups := InitialGroups(pairs);
    if k :| 0 <= k < |groups| && c in groups[k] {
      assert c in Members(pairs, order[k]);
      var p :| p in pairs && p == (c, order[k]);
    }
    if k :| 0 <= k < |pairs| && pairs[k].0 == c {
      var g := pairs[k].1;
      assert g in order;
      var i :| 0 <= i < |order| && order[i] == g;
      assert pairs[k] in pairs;
      assert c in groups[i];
    }
  }

  /** The labelled cells are exactly the cells of the input. */
  lemma LinkageDomain(pairs: seq<(Cell, Group)>)
    ensures forall c :: c in LinkageSpec(pairs) <==> exists k :: 0 <= k < |pairs| && pairs[k].0 == c
  {
    forall c ensures c in LinkageSpec(pairs) <==> exists k :: 0 <= k < |pairs| && pairs[k].0 == c {
      AssignDomain(Merge(InitialGroups(pairs)), c);
      MergeCells(InitialGroups(pairs), c);
      InitialGroupsCells(pairs, c);
    }
  }

  /** Every label is the position of some group: it lies in [0, number of groups). */
  lemma LinkageRange(pairs: seq<(Cell, Group)>)
    ensures forall c :: c in LinkageSpec(pairs) ==> LinkageSpec(pairs)[c] < |GroupOrder(pairs)|
  {
    var cs := Merge(InitialGroups(pairs));
    forall c | c in LinkageSpec(pairs) ensures LinkageSpec(pairs)[c] < |GroupOrder(pairs)| {
      AssignLabelIsCluster(cs, c);
    }
  }

  /** A step never removes, renumbers or joins clusters: each keeps its key and
      position, and its cells can only be extended. */
  lemma StepKeepsClusters(cs: seq<Cluster>, i: nat, g: seq<Cell>)
    ensures |cs| <= |Step(cs, i, g)| <= |cs| + 1
    ensures forall a :: 0 <= a < |cs| ==>
              Step(cs, i, g)[a].id == cs[a].id && cs[a].cells <= Step(cs, i, g)[a].cells
  {
  }

  /** Over the whole pass, every cluster created earlier survives with its key
      and position, and its cells at that time are a prefix of its final cells. */
  lemma {:induction false} MergeKeepsClusters(groups: seq<seq<Cell>>, n: nat)
    requires n <= |groups|
    ensures |Merge(groups[..n])| <= |Merge(groups)|
    ensures forall a :: 0 <= a < |Merge(groups[..n])| ==>
              Merge(groups)[a].id == Merge(groups[..n])[a].id &&
              Merge(groups[..n])[a].cells <= Merge(groups)[a].cells
    decreases |groups| - n
  {
    if n == |groups| {
      assert groups[..n] == groups;
    } else {
      MergeKeepsClusters(groups, n + 1);
      var m := groups[..n + 1];
      assert m[..n] == groups[..n];
      StepKeepsClusters(Merge(groups[..n]), n, groups[n]);
      assert Merge(m) == Step(Merge(groups[..n]), n, groups[n]);
    }
  }

  // ---------------------------------------------------------------------------
  // Two cells that share a group value and still get different labels

  /** Folding one more group is one more step. */
  lemma MergeSnoc(groups: seq<seq<Cell>>, g: seq<Cell>)
    ensures Merge(groups + [g]) == Step(Merge(groups), |groups|, g)
  {
    var all := groups + [g];
    assert all[..|groups|] == groups && all[|groups|] == g;
    assert Merge(all) == Step(Merge(all[..|groups|]), |groups|, all[|groups|]);
  }

  /** The first group becomes cluster 0. */
  lemma MergeFirst(g: seq<Cell>)
    ensures Merge([g]) == [Cluster(0, g)]
  {
    MergeSnoc([], g);
    assert [] + [g] == [g];
  }

  /** A group that shares no cell with any cluster becomes a new cluster. */
  lemma MergeApart(groups: seq<seq<Cell>>, g: seq<Cell>)
    requires forall k :: 0 <= k < |Merge(groups)| ==> !Shares(Merge(groups)[k].cells, g)
    ensures Merge(groups + [g]) == Merge(groups) + [Cluster(|groups|, g)]
  {
    MergeSnoc(groups, g);
    StepSpec(Merge(groups), |groups|, g);
  }

  /** A group that shares a cell with cluster 0 is appended to it. */
  lemma MergeIntoFirst(groups: seq<seq<Cell>>, g: seq<Cell>)
    requires |Merge(groups)| > 0 && Shares(Merge(groups)[0].cells, g)
    ensures Merge(groups + [g]) == Merge(groups)[0 := Cluster(Merge(groups)[0].id, Merge(groups)[0].cells + g)]
  {
    MergeSnoc(groups, g);
    StepSpec(Merge(groups), |groups|, g);
  }

  /** `Members` of a four-pair input, one pair at a time. */
  function Pick(p: (Cell, Group), g: Group): seq<Cell>
  {
    if p.1 == g then [p.0] else []
  }

  lemma MembersOfFour(p1: (Cell, Group), p2: (Cell, Group), p3: (Cell, Group), p4: (Cell, Group), g: Group)
    ensures Members([p1, p2, p3, p4], g) == Pick(p1, g) + Pick(p2, g) + Pick(p3, g) + Pick(p4, g)
  {
    var s0: seq<(Cell, Group)> := [];
    var s1 := s0 + [p1];
    var s2 := s1 + [p2];
    var s3 := s2 + [p3];
    var s4 := s3 + [p4];
    assert s4 == [p1, p2, p3, p4];
    MembersSnoc(s0, p1, g);
    assert Members(s1, g) == Pick(p1, g);
    MembersSnoc(s1, p2, g);
    assert Members(s2, g) == Pick(p1, g) + Pick(p2, g);
    MembersSnoc(s2, p3, g);
    assert Members(s3, g) == Pick(p1, g) + Pick(p2, g) + Pick(p3, g);
    MembersSnoc(s3, p4, g);
  }

  lemma MembersOfFourIs(p1: (Cell, Group), p2: (Cell, Group), p3: (Cell, Group), p4: (Cell, Group), g: Group,
                        m: seq<Cell>)
    requires Pick(p1, g) + Pick(p2, g) + Pick(p3, g) + Pick(p4, g) == m
    ensures Members([p1, p2, p3, p4], g) == m
  {
    MembersOfFour(p1, p2, p3, p4, g);
  }

  /** The input of the example: cell `x` in groups `a` and `c`, cell `y` in `b` and `c`. */
  function ExamplePairs(x: Cell, y: Cell, a: Group, b: Group, c: Group): seq<(Cell, Group)>
  {
    [(x, a), (y, b), (x, c), (y, c)]
  }

  lemma ExampleOrder(x: Cell, y: Cell, a: Group, b: Group, c: Group)
    requires a != b && a != c && b != c
    ensures GroupOrder(ExamplePairs(x, y, a, b, c)) == [a, b, c]
  {
    var s0: seq<(Cell, Group)> := [];
    var s1 := s0 + [(x, a)];
    var s2 := s1 + [(y, b)];
    var s3 := s2 + [(x, c)];
    var s4 := s3 + [(y, c)];
    assert s4 == ExamplePairs(x, y, a, b, c);
    GroupOrderSnoc(s0, (x, a));
    GroupOrderSnoc(s1, (y, b));
    GroupOrderSnoc(s2, (x, c));
    GroupOrderSnoc(s3, (y, c));
  }

  lemma ExampleMembers(x: Cell, y: Cell, a: Group, b: Group, c: Group)
    requires a != b && a != c && b != c
    ensures Members(ExamplePairs(x, y, a, b, c), a) == [x]
    ensures Members(ExamplePairs(x, y, a, b, c), b) == [y]
    ensures Members(ExamplePairs(x, y, a, b, c), c) == [x, y]
  {
    var p1, p2, p3, p4 := (x, a), (y, b), (x, c), (y, c);
    assert ExamplePairs(x, y, a, b, c) == [p1, p2, p3, p4];
    assert Pick(p1, a) + Pick(p2, a) + Pick(p3, a) + Pick(p4, a) == [x] by {
      assert Pick(p1, a) == [x] && Pick(p2, a) == [] && Pick(p3, a) == [] && Pick(p4, a) == [];
    }
    MembersOfFourIs(p1, p2, p3, p4, a, [x]);
    assert Pick(p1, b) + Pick(p2, b) + Pick(p3, b) + Pick(p4, b) == [y] by {
      assert Pick(p1, b) == [] && Pick(p2, b) == [y] && Pick(p3, b) == [] && Pick(p4, b) == [];
    }
    MembersOfFourIs(p1, p2, p3, p4, b, [y]);
    assert Pick(p1, c) + Pick(p2, c) + Pick(p3, c) + Pick(p4, c) == [x, y] by {
      assert Pick(p1, c) == [] && Pick(p2, c) == [] && Pick(p3, c) == [x] && Pick(p4, c) == [y];
    }
    MembersOfFourIs(p1, p2, p3, p4, c, [x, y]);
  }

  lemma ExampleGroups(x: Cell, y: Cell, a: Group, b: Group, c: Group)
    requires a != b && a != c && b != c
    ensures InitialGroups(ExamplePairs(x, y, a, b, c)) == [[x], [y], [x, y]]
  {
    ExampleOrder(x, y, a, b, c);
    ExampleMembers(x, y, a, b, c);
    var groups := InitialGroups(ExamplePairs(x, y, a, b, c));
    assert groups[0] == [x] && groups[1] == [y] && groups[2] == [x, y];
  }

  lemma ExampleMergeTwo(x: Cell, y: Cell)
    requires x != y
    ensures Merge([[x], [y]]) == [Cluster(0, [x]), Cluster(1, [y])]
  {
    var g1, g2: seq<Cell> := [x], [y];
    MergeFirst(g1);
    assert !Shares(g1, g2);
    MergeApart([g1], g2);
    assert [g1] + [g2] == [g1, g2];
  }

  lemma ExampleMerge(x: Cell, y: Cell)
    requires x != y
    ensures Merge([[x], [y], [x, y]]) == [Cluster(0, [x, x, y]), Cluster(1, [y])]
  {
    var g12: seq<seq<Cell>> := [[x], [y]];
    var g3: seq<Cell> := [x, y];
    ExampleMergeTwo(x, y);
    var c := Cluster(0, [x]);
    assert Shares(c.cells, g3) by { assert c.cells[0] in g3; }
    MergeIntoFirst(g12, g3);
    assert g12 + [g3] == [[x], [y], [x, y]];
    assert c.cells + g3 == [x, x, y];
  }

  lemma AssignTwo(c0: Cluster, c1: Cluster)
    ensures Assign([c0, c1]) == CellMap(c0) + CellMap(c1)
  {
    assert [c0, c1][..1] == [c0];
    assert [c0][..0] == [];
    assert Assign([c0]) == map[] + CellMap(c0);
    assert map[] + CellMap(c0) == CellMap(c0);
    assert Assign([c0, c1]) == Assign([c0]) + CellMap(c1);
  }

  lemma ExampleCellMaps(x: Cell, y: Cell)
    ensures CellMap(Cluster(0, [x, x, y])) == map[x := 0, y := 0]
    ensures CellMap(Cluster(1, [y])) == map[y := 1]
  {
  }

  lemma ExampleAssign(x: Cell, y: Cell)
    requires x != y
    ensures Assign([Cluster(0, [x, x, y]), Cluster(1, [y])]) == map[x := 0, y := 1]
  {
    var c0, c1 := Cluster(0, [x, x, y]), Cluster(1, [y]);
    AssignTwo(c0, c1);
    ExampleCellMaps(x, y);
    assert map[x := 0, y := 0] + map[y := 1] == map[x := 0, y := 1];
  }

  /** Not single linkage: cells x and y share the group value c, yet they get
      different labels. Group a = [x] becomes cluster 0 and b = [y] cluster 1;
      c = [x, y] joins only cluster 0 (the first it meets), so clusters 0 and 1
      stay apart and y, found in both, keeps the later key 1. */
  lemma SharedGroupSplitLabels(x: Cell, y: Cell, a: Group, b: Group, c: Group)
    requires x != y
    requires a != b && a != c && b != c
    ensures LinkageSpec(ExamplePairs(x, y, a, b, c)) == map[x := 0, y := 1]
  {
    ExampleGroups(x, y, a, b, c);
    ExampleMerge(x, y);
    ExampleAssign(x, y);
  }

  /** The same memberships in another input order: the shared group `c`
      comes first. */
  function ReorderedPairs(x: Cell, y: Cell, a: Group, b: Group, c: Group): seq<(Cell, Group)>
  {
    [(x, c), (y, c), (x, a), (y, b)]
  }

  lemma ReorderedOrder(x: Cell, y: Cell, a: Group, b: Group, c: Group)
    requires a != b && a != c && b != c
    ensures GroupOrder(ReorderedPairs(x, y, a, b, c)) == [c, a, b]
  {
    var s0: seq<(Cell, Group)> := [];
    var s1 := s0 + [(x, c)];
    var s2 := s1 + [(y, c)];
    var s3 := s2 + [(x, a)];
    var s4 := s3 + [(y, b)];
    assert s4 == ReorderedPairs(x, y, a, b, c);
    GroupOrderSnoc(s0, (x, c));
    GroupOrderSnoc(s1, (y, c));
    GroupOrderSnoc(s2, (x, a));
    GroupOrderSnoc(s3, (y, b));
  }

  lemma ReorderedMembers(x: Cell, y: Cell, a: Group, b: Group, c: Group)
    requires a != b && a != c && b != c
    ensures Members(ReorderedPairs(x, y, a, b, c), c) == [x, y]
    ensures Members(ReorderedPairs(x, y, a, b, c), a) == [x]
    ensures Members(ReorderedPairs(x, y, a, b, c), b) == [y]
  {
    var p1, p2, p3, p4 := (x, c), (y, c), (x, a), (y, b);
    assert ReorderedPairs(x, y, a, b, c) == [p1, p2, p3, p4];
    assert Pick(p1, c) + Pick(p2, c) + Pick(p3, c) + Pick(p4, c) == [x, y] by {
      assert Pick(p1, c) == [x] && Pick(p2, c) == [y] && Pick(p3, c) == [] && Pick(p4, c) == [];
    }
    MembersOfFourIs(p1, p2, p3, p4, c, [x, y]);
    assert Pick(p1, a) + Pick(p2, a) + Pick(p3, a) + Pick(p4, a) == [x] by {
      assert Pick(p1, a) == [] && Pick(p2, a) == [] && Pick(p3, a) == [x] && Pick(p4, a) == [];
    }
    MembersOfFourIs(p1, p2, p3, p4, a, [x]);
    assert Pick(p1, b) + Pick(p2, b) + Pick(p3, b) + Pick(p4, b) == [y] by {
      assert Pick(p1, b) == [] && Pick(p2, b) == [] && Pick(p3, b) == [] && Pick(p4, b) == [y];
    }
    MembersOfFourIs(p1, p2, p3, p4, b, [y]);
  }

  lemma ReorderedGroups(x: Cell, y: Cell, a: Group, b: Group, c: Group)
    requires a != b && a != c && b != c
    ensures InitialGroups(ReorderedPairs(x, y, a, b, c)) == [[x, y], [x], [y]]
  {
    ReorderedOrder(x, y, a, b, c);
    ReorderedMembers(x, y, a, b, c);
    var groups := InitialGroups(ReorderedPairs(x, y, a, b, c));
    assert groups[0] == [x, y] && groups[1] == [x] && groups[2] == [y];
  }

  lemma ReorderedMergeTwo(x: Cell, y: Cell)
    ensures Merge([[x, y], [x]]) == [Cluster(0, [x, y, x])]
  {
    var g1, g2: seq<Cell> := [x, y], [x];
    MergeFirst(g1);
    assert Shares(g1, g2) by { assert g1[0] in g2; }
    MergeIntoFirst([g1], g2);
    assert [g1] + [g2] == [g1, g2];
    assert g1 + g2 == [x, y, x];
  }

  lemma ReorderedMerge(x: Cell, y: Cell)
    ensures Merge([[x, y], [x], [y]]) == [Cluster(0, [x, y, x, y])]
  {
    var g12: seq<seq<Cell>> := [[x, y], [x]];
    var g3: seq<Cell> := [y];
    ReorderedMergeTwo(x, y);
    var c := Cluster(0, [x, y, x]);
    assert Shares(c.cells, g3) by { assert c.cells[1] in g3; }
    MergeIntoFirst(g12, g3);
    assert g12 + [g3] == [[x, y], [x], [y]];
    assert c.cells + g3 == [x, y, x, y];
  }

  lemma ReorderedAssign(x: Cell, y: Cell)
    ensures Assign([Cluster(0, [x, y, x, y])]) == map[x := 0, y := 0]
  {
    var c0 := Cluster(0, [x, y, x, y]);
    assert [c0][..0] == [];
    assert Assign([c0]) == map[] + CellMap(c0);
  }

  /** The result depends on the input order: with the same memberships as in
      `SharedGroupSplitLabels` but the shared group `c` entered first, `c`
      becomes cluster 0, and `a` and `b` each join it, so x and y both get
      label 0. */
  lemma SharedGroupFirstJoinsLabels(x: Cell, y: Cell, a: Group, b: Group, c: Group)
    requires a != b && a != c && b != c
    ensures LinkageSpec(ReorderedPairs(x, y, a, b, c)) == map[x := 0, y := 0]
  {
    ReorderedGroups(x, y, a, b, c);
    ReorderedMerge(x, y);
    ReorderedAssign(x, y);
  }

  /** The groups share no cell. */
  predicate Disjoint(groups: seq<seq<Cell>>)
  {
    forall i, j, c :: 0 <= i < |groups| && 0 <= j < |groups| && i != j && c in groups[i] ==> c !in groups[j]
  }

  /** The last of disjoint groups shares no cell with the clusters of the others. */
  lemma LastSharesNone(groups: seq<seq<Cell>>, cs: seq<Cluster>)
    requires Disjoint(groups) && |groups| > 0
    requires |cs| == |groups| - 1
    requires forall k :: 0 <= k < |cs| ==> cs[k] == Cluster(k, groups[k])
    ensures forall k :: 0 <= k < |cs| ==> !Shares(cs[k].cells, groups[|groups| - 1])
  {
    var n := |groups| - 1;
    forall k | 0 <= k < |cs| ensures !Shares(cs[k].cells, groups[n]) {
      forall m | 0 <= m < |groups[k]| ensures groups[k][m] !in groups[n] {
        assert groups[k][m] in groups[k];
      }
    }
  }

  lemma DisjointPrefix(groups: seq<seq<Cell>>, n: nat)
    requires Disjoint(groups) && n <= |groups|
    ensures Disjoint(groups[..n])
  {
    forall i, j, c | 0 <= i < n && 0 <= j < n && i != j && c in groups[..n][i] ensures c !in groups[..n][j] {
      assert groups[..n][i] == groups[i] && groups[..n][j] == groups[j];
    }
  }

  /** Groups that share no cell become one cluster each, keyed by position. */
  lemma {:induction false} MergeDisjoint(groups: seq<seq<Cell>>)
    requires Disjoint(groups)
    ensures |Merge(groups)| == |groups|
    ensures forall k :: 0 <= k < |groups| ==> Merge(groups)[k] == Cluster(k, groups[k])
  {
    if groups != [] {
      var n := |groups| - 1;
      var prev := groups[..n];
      DisjointPrefix(groups, n);
      MergeDisjoint(prev);
      var cs := Merge(prev);
      LastSharesNone(groups, cs);
      assert groups == prev + [groups[n]];
      MergeSnoc(prev, groups[n]);
      StepSpec(cs, n, groups[n]);
      var r := cs + [Cluster(n, groups[n])];
      assert Merge(groups) == r;
      forall k | 0 <= k < |groups| ensures r[k] == Cluster(k, groups[k]) {
        if k < n {
          assert r[k] == cs[k] && prev[k] == groups[k];
        }
      }
    }
  }

  /** Every cell carries a single group value. */
  predicate OneGroupPerCell(pairs: seq<(Cell, Group)>)
  {
    forall a, b :: 0 <= a < |pairs| && 0 <= b < |pairs| && pairs[a].0 == pairs[b].0 ==> pairs[a].1 == pairs[b].1
  }

  lemma InitialGroupsDisjoint(pairs: seq<(Cell, Group)>)
    requires OneGroupPerCell(pairs)
    ensures Disjoint(InitialGroups(pairs))
  {
    var order := GroupOrder(pairs);
    var groups := InitialGroups(pairs);
    forall i, j, c | 0 <= i < |groups| && 0 <= j < |groups| && i != j && c in groups[i]
      ensures c !in groups[j]
    {
      assert (c, order[i]) in pairs;
    }
  }

  /** With one group value per cell, a cell's label is the position of its group. */
  lemma {:induction false} LabelIsGroupPosition(pairs: seq<(Cell, Group)>, a: nat)
    requires OneGroupPerCell(pairs)
    requires a < |pairs|
    ensures pairs[a].0 in LinkageSpec(pairs)
    ensures LinkageSpec(pairs)[pairs[a].0] < |GroupOrder(pairs)|
    ensures GroupOrder(pairs)[LinkageSpec(pairs)[pairs[a].0]] == pairs[a].1
  {
    var order := GroupOrder(pairs);
    var groups := InitialGroups(pairs);
    InitialGroupsDisjoint(pairs);
    MergeDisjoint(groups);
    var cs := Merge(groups);
    var c := pairs[a].0;
    assert pairs[a].1 in order;
    var i :| 0 <= i < |order| && order[i] == pairs[a].1;
    assert pairs[a] in pairs;
    assert c in groups[i];
    assert cs[i] == Cluster(i, groups[i]);
    forall k | i < k < |cs| ensures c !in cs[k].cells {
      assert cs[k] == Cluster(k, groups[k]);
    }
    AssignLast(cs, i, c);
  }

  /** When every cell carries a single group value (one light chain per cell),
      the linkage is exact: two cells get the same label exactly when they
      have the same group value. */
  lemma LinkageOneGroupPerCell(pairs: seq<(Cell, Group)>)
    requires OneGroupPerCell(pairs)
    ensures forall a :: 0 <= a < |pairs| ==> pairs[a].0 in LinkageSpec(pairs)
    ensures forall a, b :: 0 <= a < |pairs| && 0 <= b < |pairs| ==>
              (LinkageSpec(pairs)[pairs[a].0] == LinkageSpec(pairs)[pairs[b].0] <==> pairs[a].1 == pairs[b].1)
  {
    forall a | 0 <= a < |pairs| ensures pairs[a].0 in LinkageSpec(pairs) {
      LabelIsGroupPosition(pairs, a);
    }
    forall a, b | 0 <= a < |pairs| && 0 <= b < |pairs|
      ensures LinkageSpec(pairs)[pairs[a].0] == LinkageSpec(pairs)[pairs[b].0] <==> pairs[a].1 == pairs[b].1
    {
      LabelIsGroupPosition(pairs, a);
      LabelIsGroupPosition(pairs, b);
    }
  }

  // ---------------------------------------------------------------------------
  // The imperative procedure

  /** One more pair entered into `initial_dict`: its cell is appended to its
      group's list, which is created if the group is new. */
  lemma InitialStep(prefix: seq<(Cell, Group)>, p: (Cell, Group), initial: map<Group, seq<Cell>>,
                    next: map<Group, seq<Cell>>)
    requires forall g :: g in initial <==> g in GroupOrder(prefix)
    requires forall g :: g in initial ==> initial[g] == Members(prefix, g)
    requires next == if p.1 in initial then initial[p.1 := initial[p.1] + [p.0]] else initial[p.1 := [p.0]]
    ensures forall g :: g in next <==> g in GroupOrder(prefix + [p])
    ensures forall g :: g in next ==> next[g] == Members(prefix + [p], g)
  {
    GroupOrderSnoc(prefix, p);
    forall g | g in next ensures next[g] == Members(prefix + [p], g) {
      MembersSnoc(prefix, p, g);
      if g == p.1 && p.1 !in initial {
        UnseenGroupHasNoMembers(prefix, g);
      }
    }
  }

  /** The first loop of `clusterLinkage`: `initial_dict`, its key order kept in `order`. */
  method BuildInitial(pairs: seq<(Cell, Group)>) returns (order: seq<Group>, initial: map<Group, seq<Cell>>)
    ensures order == GroupOrder(pairs)
    ensures forall g :: g in initial <==> g in order
    ensures forall g :: g in initial ==> initial[g] == Members(pairs, g)
  {
    order, initial := [], map[];
    for k := 0 to |pairs|
      invariant order == GroupOrder(pairs[..k])
      invariant forall g :: g in initial <==> g in order
      invariant forall g :: g in initial ==> initial[g] == Members(pairs[..k], g)
    {
      var (cell, group) := pairs[k];
      assert pairs[..k + 1] == pairs[..k] + [(cell, group)];
      GroupOrderSnoc(pairs[..k], (cell, group));
      ghost var before := initial;
      if group in initial {
        initial := initial[group := initial[group] + [cell]];
      } else {
        initial := initial[group := [cell]];
        order := order + [group];
      }
      InitialStep(pairs[..k], (cell, group), before, initial);
    }
    assert pairs[..|pairs|] == pairs;
  }

  /** The second loop: `cluster_dict`, its entries in insertion order. */
  method MergeGroups(order: seq<Group>, initial: map<Group, seq<Cell>>) returns (clusters: seq<Cluster>)
    requires forall g :: g in order ==> g in initial
    ensures clusters == Merge(seq(|order|, i requires 0 <= i < |order| => initial[order[i]]))
  {
    ghost var groups := seq(|order|, i requires 0 <= i < |order| => initial[order[i]]);
    clusters := [];
    for i := 0 to |order|
      invariant clusters == Merge(groups[..i])
    {
      var cells := initial[order[i]];
      assert groups[..i + 1] == groups[..i] + [cells];
      MergeSnoc(groups[..i], cells);
      // the source inserts key i, scans the other keys in order, and on the
      // first shared cell extends that cluster, deletes key i and stops
      var j := 0;
      while j < |clusters| && !Shares(clusters[j].cells, cells)
        invariant 0 <= j <= |clusters|
        invariant forall k :: 0 <= k < j ==> !Shares(clusters[k].cells, cells)
      {
        j := j + 1;
      }
      if j < |clusters| {
        assert FirstSharing(clusters, cells, 0) == Some(j);
        clusters := clusters[j := Cluster(clusters[j].id, clusters[j].cells + cells)];
      } else {
        assert FirstSharing(clusters, cells, 0) == None;
        clusters := clusters + [Cluster(i, cells)];
      }
    }
    assert groups[..|order|] == groups;
  }

  /** One more cell of a cluster entered into the inversion. */
  lemma CellMapSnoc(prev: map<Cell, nat>, c: Cluster, m: nat)
    requires m < |c.cells|
    ensures (prev + CellMap(Cluster(c.id, c.cells[..m])))[c.cells[m] := c.id] ==
            prev + CellMap(Cluster(c.id, c.cells[..m + 1]))
  {
    assert c.cells[..m + 1] == c.cells[..m] + [c.cells[m]];
    assert CellMap(Cluster(c.id, c.cells[..m + 1])) == CellMap(Cluster(c.id, c.cells[..m]))[c.cells[m] := c.id];
  }

  /** The inversion into `assign_dict` (iterating the list instead of `set(v)`
      writes the same entries). */
  method Invert(clusters: seq<Cluster>) returns (assign: map<Cell, nat>)
    ensures assign == Assign(clusters)
  {
    assign := map[];
    for k := 0 to |clusters|
      invariant assign == Assign(clusters[..k])
    {
      var c := clusters[k];
      assert clusters[..k + 1][..k] == clusters[..k];
      for m := 0 to |c.cells|
        invariant assign == Assign(clusters[..k]) + CellMap(Cluster(c.id, c.cells[..m]))
      {
        CellMapSnoc(Assign(clusters[..k]), c, m);
        assign := assign[c.cells[m] := c.id];
      }
      assert c.cells[..|c.cells|] == c.cells;
    }
    assert clusters[..|clusters|] == clusters;
  }

  /** `clusterLinkage(cell_series, group_series)`, with `pairs` the zip of the two. */
  method ClusterLinkage(pairs: seq<(Cell, Group)>) returns (assign: map<Cell, nat>)
    ensures assign == LinkageSpec(pairs)
    ensures forall c :: c in assign <==> exists k :: 0 <= k < |pairs| && pairs[k].0 == c
    ensures forall c :: c in assign ==> assign[c] < |GroupOrder(pairs)|
  {
    var order, initial := BuildInitial(pairs);
    var clusters := MergeGroups(order, initial);
    assert seq(|order|, i requires 0 <= i < |order| => initial[order[i]]) == InitialGroups(pairs);
    assign := Invert(clusters);
    LinkageDomain(pairs);
    LinkageRange(pairs);
  }
}
