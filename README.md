# Light-chain clone correction and build versioning, in Dafny

This project models three small Python programs from the Immcantation
repository and proves properties of the model.

- `scripts/light_cluster.py` corrects heavy-chain (IGH) clone assignments
  using the light chains (IGK/IGL) of each single cell. The tables use one of
  two column conventions, `changeo` (the default) or `airr`. A cell with more
  than one heavy chain is dropped. Each light row takes the clone of its
  cell's heavy row and gets a signature: V gene, J gene, junction length and
  that clone. `clusterLinkage` then groups cells that share a signature into
  numbered sub-clones, and every remaining heavy row's clone becomes
  `clone_<sub-clone>`.
- `scripts/light_majority.py` is the second version of the same correction.
  Each light row gets a VJJL key (V gene, J gene, junction length). Each clone
  elects its most frequent VJJL, and the first one wins a tie. A cell whose
  rows carry that majority VJJL is labelled with it. Any other cell is
  labelled with all of its VJJLs joined by `;`. Heavy rows get
  `clone_<label>`.
- `docker/immcantation-base/tools/builds.py` keeps a build file of
  `field: value` entries. `writeBuild` sets one field and rewrites the file:
  the known fields (`date`, `immcantation`, `presto`, …) come first, in a
  fixed order, followed by the written field if it is not a known one.
  `reportBuild` lists every field, the known ones first.

Modules:
- `Results`: `Option` and `Result`.
- `Sequences`: `Distinct`.
- `Strings`: Python's `split`, `join` and `str(int)`.
- `GeneCalls`: gene names and the VJJL key.
- `Tables`: rows as maps from column name to value. Also the pandas steps the
  scripts use: the cell-to-clone dictionary, the doublet filter, the inner
  join on the cell and the relabelling.
- `Linkage`: `clusterLinkage`. It has a specification function and an
  imperative method proved equal to it.
- `LightCluster` and `LightMajority`: the two scripts, from the moment the
  tables are read.
- `Builds`: `writeBuild` is a method with its loop. `reportBuild` is a
  function.

`clusterLinkage`'s docstring promises single linkage. The code does something
else, and the model follows the code. Each group is appended to the *first*
existing cluster that shares a cell with it. Clusters are never joined to each
other. When a cell ends up in several clusters, the inversion keeps the last
one. `Linkage.SharedGroupSplitLabels` proves a small case. Take any two cells `x`
and `y` and any three distinct groups `a`, `b`, `c`, and the input pairs
`(x, a), (y, b), (x, c), (y, c)`, in that order. The two cells share group
`c`, but they still get the different labels 0 and 1. The result also depends
on the order of the input. `Linkage.SharedGroupFirstJoinsLabels` takes the same
memberships in the order `(x, c), (y, c), (x, a), (y, b)`, and then both cells
get label 0. The filter and the join that build the input keep the rows in
their input order (`Tables.KeepCountedAppend`, `Tables.JoinCloneAppend`).
`LightCluster.SameSubCloneExact` proves the case where the result is exact.
When every cell has a single signature, two cells share a sub-clone exactly
when their V gene, J gene, junction length and heavy clone agree.

## Model

| member | source | states |
|---|---|---|
| Strings.Before | scripts/light_cluster.py:94-95 | `s.split(sep)[0]`: a prefix of `s` that does not contain `sep`; it is all of `s`, or is followed in `s` by `sep` |
| Strings.Split | scripts/light_majority.py:42 | `s.split(sep)` always has at least one part |
| Strings.SplitJoin | scripts/light_majority.py:42 | splitting a `;`-join of parts that contain no `;` gives back exactly those parts |
| Strings.Join | scripts/light_majority.py:42 | `";".join(parts)`, defined by its body; `SplitJoin` states that `Split` undoes it for parts free of the separator |
| Strings.NatToString | scripts/light_cluster.py:96 | `str(n)`: non-empty decimal digits, no leading zero, whose value is `n` |
| Strings.NatToStringInjective | scripts/light_cluster.py:100 | different numbers give different strings, so different sub-clone numbers give different suffixes |
| GeneCalls.GeneName | scripts/light_cluster.py:94-95 | the gene of a call is a prefix of the call and contains no `,` and no `*` |
| GeneCalls.AlleleIgnored | scripts/light_majority.py:22-23 | the allele after `*` does not change the gene |
| GeneCalls.SecondaryCallsIgnored | scripts/light_majority.py:22-23 | calls after the first `,` do not change the gene |
| GeneCalls.NumeralCommaFree | scripts/light_majority.py:24 | the junction length written in decimal contains no `,` |
| GeneCalls.VjjlTailInjective | scripts/light_majority.py:22-24 | two VJJL keys, each followed by nothing or by a `,`-led tail, are equal exactly when their V genes, J genes, junction lengths and tails are equal |
| GeneCalls.Vjjl | scripts/light_majority.py:22-24 | the VJJL key `V gene, J gene, junction length`, defined by its body; `AlleleIgnored`, `SecondaryCallsIgnored` and `VjjlTailInjective` state what it keeps and ignores |
| Tables.HeaderColumn | scripts/light_cluster.py:81-82 | every row of a table read with a header has every header column |
| Tables.Column | scripts/light_cluster.py:89 | `df[col]`: one value per row, in row order |
| Tables.CloneDict | scripts/light_cluster.py:88 | the cell-to-clone dictionary has exactly the cells of the rows as keys |
| Tables.CloneDictLastRow | scripts/light_majority.py:27 | a cell's clone in the dictionary is that of its last row |
| Tables.KeepCounted | scripts/light_cluster.py:85 | the filter keeps only rows of the input whose cell has count 1 |
| Tables.KeepCountedAppend | scripts/light_cluster.py:85 | the filter works row by row: filtering two blocks of rows gives the first block's kept rows followed by the second's, so input order is kept |
| Tables.KeepCountedOne | scripts/light_cluster.py:85 | one row is kept iff its cell has count one |
| Tables.KeepCountedComplete | scripts/light_cluster.py:85 | every row whose cell has count 1 is kept |
| Tables.KeepCountedSubMultiset | scripts/light_cluster.py:85 | the kept cells are a sub-multiset of the input's cells |
| Tables.SingleCellRows | scripts/light_cluster.py:85 | the rows kept are rows of the input whose cell occurs once |
| Tables.SingleCellRowsCells | scripts/light_cluster.py:85 | a cell is among the kept rows' cells iff it occurs exactly once in the input |
| Tables.SingleCellRowsExact | scripts/light_cluster.py:85 | a row is kept iff its cell occurs once, and no two kept rows share a cell |
| Tables.JoinClone | scripts/light_cluster.py:89-90 | the join keeps at most the input's rows, and every kept row has a cell and a clone |
| Tables.JoinCloneAppend | scripts/light_cluster.py:89-90 | the join works row by row: joining two blocks of rows gives the first block's joined rows followed by the second's, so input order is kept |
| Tables.JoinCloneOne | scripts/light_cluster.py:89-90 | one row is joined, with the dictionary's clone, iff its cell is a key of the dictionary |
| Tables.JoinCloneRows | scripts/light_cluster.py:89-90 | every joined row is an input row whose cell is in the dictionary, with the dictionary's clone; every such input row is joined |
| Tables.JoinCloneCells | scripts/light_majority.py:29-31 | a cell survives the join iff it is in the input and in the dictionary |
| Tables.JoinCloneSameCell | scripts/light_majority.py:31 | every joined row's clone is the dictionary's clone for its cell |
| Tables.WithClone | scripts/light_cluster.py:90 | one joined row: the row with its clone column set to the dictionary's clone for its cell, defined by its body; `JoinCloneOne` and `JoinCloneSameCell` state it |
| Tables.Relabel | scripts/light_cluster.py:99-100 | relabelling keeps at most the input's rows |
| Tables.RelabelRows | scripts/light_cluster.py:99-100 | every output row is an input row with a label, its clone suffixed with `_` and the label; every labelled input row appears so |
| Tables.RelabelAppend | scripts/light_majority.py:45-47 | relabelling distributes over concatenation, so row order is kept |
| Tables.RelabelValid | scripts/light_majority.py:47 | the relabelled table keeps its header and every row still has every header column |
| Tables.Suffixed | scripts/light_cluster.py:100 | one relabelled row: its clone with `_` and the label appended, defined by its body; `RelabelRows` states it |
| Linkage.GroupOrder | scripts/light_cluster.py:55-60 | the keys of `initial_dict`: each group value once, and exactly the values that occur |
| Linkage.Members | scripts/light_cluster.py:56-60 | a group's cell list holds exactly the cells paired with it |
| Linkage.UnseenGroupHasNoMembers | scripts/light_cluster.py:56-60 | a group that does not occur has no cells |
| Linkage.InitialGroups | scripts/light_cluster.py:55-60 | one cell list per distinct group |
| Linkage.FirstSharing | scripts/light_cluster.py:67-72 | the scan finds the first cluster that shares a cell with the group, or reports that none does |
| Linkage.StepSpec | scripts/light_cluster.py:65-72 | a group that shares no cell becomes cluster `i`; otherwise it is appended to the first sharing cluster, and cluster `i` is removed |
| Linkage.Step | scripts/light_cluster.py:65-72 | one pass of the outer loop, defined by its body; `StepSpec` states it, and `StepCells` and `StepKeepsClusters` what it keeps |
| Linkage.MergeSnoc | scripts/light_cluster.py:64-72 | merging one more group is one more step on the clusters merged so far |
| Linkage.Merge | scripts/light_cluster.py:64-72 | cluster numbers are group positions, strictly increasing |
| Linkage.AssignDomain | scripts/light_cluster.py:75 | the inversion labels exactly the cells of the clusters |
| Linkage.AssignLast | scripts/light_cluster.py:75 | a cell gets the number of the last cluster that holds it |
| Linkage.AssignLabelIsCluster | scripts/light_cluster.py:75 | every label is the number of a cluster that holds the cell |
| Linkage.CellMap | scripts/light_cluster.py:75 | the inversion of one cluster, every cell of it mapped to its number, defined by its body; `AssignDomain` and `AssignLast` state its effect |
| Linkage.Assign | scripts/light_cluster.py:75 | the inversion of all clusters, later ones overwriting earlier ones, defined by its body; `AssignDomain`, `AssignLast` and `AssignLabelIsCluster` state it |
| Linkage.StepCells | scripts/light_cluster.py:65-72 | a step loses no cell and adds exactly the group's cells |
| Linkage.MergeCells | scripts/light_cluster.py:64-72 | the clusters hold exactly the cells of the groups |
| Linkage.InitialGroupsCells | scripts/light_cluster.py:55-60 | the initial groups hold exactly the input cells |
| Linkage.LinkageDomain | scripts/light_cluster.py:40-77 | the result's keys are exactly the input cells |
| Linkage.LinkageRange | scripts/light_cluster.py:40-77 | every label is below the number of distinct groups |
| Linkage.LinkageSpec | scripts/light_cluster.py:40-77 | what `clusterLinkage` returns, defined by its body; `LinkageDomain`, `LinkageRange`, `LinkageOneGroupPerCell` and the two shared-group lemmas state it, and `ClusterLinkage` is proved equal to it |
| Linkage.MergeKeepsClusters | scripts/light_cluster.py:64-72 | clusters are never removed or renumbered later, and only grow |
| Linkage.SharedGroupSplitLabels | scripts/light_cluster.py:64-75 | for any distinct cells `x`, `y` and distinct groups `a`, `b`, `c`, the input `(x, a), (y, b), (x, c), (y, c)`, in that order, gives `x` label 0 and `y` label 1: a shared group does not unify labels |
| Linkage.SharedGroupFirstJoinsLabels | scripts/light_cluster.py:55-75 | for distinct groups `a`, `b`, `c`, the same memberships in the order `(x, c), (y, c), (x, a), (y, b)` give both cells label 0: the result depends on the input order |
| Linkage.MergeDisjoint | scripts/light_cluster.py:64-72 | groups that share no cell stay separate, cluster `k` holding group `k` |
| Linkage.InitialGroupsDisjoint | scripts/light_cluster.py:55-60 | when each cell has a single group, the initial groups share no cell |
| Linkage.LabelIsGroupPosition | scripts/light_cluster.py:40-77 | when each cell has a single group, its label is that group's position |
| Linkage.LinkageOneGroupPerCell | scripts/light_cluster.py:40-77 | when each cell has a single group, two cells share a label iff they share a group |
| Linkage.BuildInitial | scripts/light_cluster.py:55-60 | the loop builds the group order and each group's cells in input order |
| Linkage.MergeGroups | scripts/light_cluster.py:64-72 | the loop computes `Merge` of the groups in key order |
| Linkage.Invert | scripts/light_cluster.py:75 | the loop computes the inversion `Assign` |
| Linkage.ClusterLinkage | scripts/light_cluster.py:40-77 | `clusterLinkage` returns `LinkageSpec`: every input cell is labelled, and with a number below the number of groups |
| LightCluster.ColumnNames | scripts/light_cluster.py:18-37 | no format or `changeo` gives the upper-case names, `airr` the lower-case ones, all distinct; any other format fails with `Invalid format <format>` |
| LightCluster.FormatDefault | scripts/light_cluster.py:18-21 | a missing format is `changeo`, and it differs from `airr` |
| LightCluster.SignatureExact | scripts/light_cluster.py:94-96 | two light rows have equal signatures iff their V genes, J genes, junction lengths and clones agree |
| LightCluster.Signature | scripts/light_cluster.py:94-96 | the group value of a light row, the VJJL key and its clone, defined by its body; `SignatureExact` states when two are equal |
| LightCluster.LightPairs | scripts/light_cluster.py:93-96 | the `(cell, signature)` pairs passed to `clusterLinkage`, one per joined light row, defined by its body; `PairCells` states their cells |
| LightCluster.SubClones | scripts/light_cluster.py:93-96 | the `cluster_dict` of the script, defined by its body; `LabelledCells` and `SameSubCloneExact` state it |
| LightCluster.SingleHeavy | scripts/light_cluster.py:85 | the kept heavy rows still have cell and clone |
| LightCluster.Labels | scripts/light_cluster.py:100 | labels are given for exactly the labelled cells |
| LightCluster.SingleHeavyCells | scripts/light_cluster.py:85-88 | a cell has a clone to transfer iff it has exactly one heavy row |
| LightCluster.JoinedLight | scripts/light_cluster.py:88-90 | the light rows with the clone of their cell's single heavy row, defined by its body; `SingleHeavyCells` and `PairCells` state it |
| LightCluster.PairCells | scripts/light_cluster.py:93-96 | the cells passed to `clusterLinkage` are exactly the light rows' cells |
| LightCluster.LabelledCells | scripts/light_cluster.py:85-96 | a cell gets a sub-clone iff it has light rows and exactly one heavy row |
| LightCluster.OutputSound | scripts/light_cluster.py:99-100 | every output row is a single-heavy-chain row of a cell with light rows, its clone suffixed with `_` and its sub-clone |
| LightCluster.OutputComplete | scripts/light_cluster.py:99-100 | every single-heavy-chain row of a cell with light rows is output so |
| LightCluster.Output | scripts/light_cluster.py:99-100 | the heavy table the script writes, defined by its body; `OutputSound` and `OutputComplete` state it |
| LightCluster.SplitByLinkage | scripts/light_cluster.py:18-103 | the script succeeds iff the format is known and every column it reads is present; an unknown format fails with `Invalid format <format>`, any other failure is a `KeyError` on one of the five columns |
| LightCluster.SplitByLinkageOutput | scripts/light_cluster.py:81-103 | on success the output is the relabelled heavy table with the heavy header, sound and complete as above |
| LightCluster.SameSubCloneExact | scripts/light_cluster.py:93-96 | when every cell has a single signature, two cells share a sub-clone iff V gene, J gene, junction length and clone agree |
| LightMajority.WithVjjl | scripts/light_majority.py:22-24 | every light row gains exactly the VJJL column |
| LightMajority.VjjlOfRow | scripts/light_majority.py:22-24 | a row's VJJL is its V gene, J gene and junction length, joined by `,`, whatever the allele and secondary calls |
| LightMajority.ValuesWhere | scripts/light_majority.py:34-42 | a group's values come from at most the input's rows |
| LightMajority.ValuesWhereAppend | scripts/light_majority.py:34-42 | grouping goes row by row: the values of two blocks of rows are those of the first block followed by those of the second, duplicates included |
| LightMajority.ValuesWhereOne | scripts/light_majority.py:34-42 | one row gives its value when it has the key, and nothing otherwise |
| LightMajority.ValuesWhereCount | scripts/light_majority.py:35 | `count(x)` on a group's values is the number of the group's rows that hold `x` |
| LightMajority.ValuesWhereMembers | scripts/light_majority.py:34-42 | a group's values are exactly the values of the rows with that key |
| LightMajority.ValuesWhereNonEmpty | scripts/light_majority.py:38-42 | a group is non-empty iff its key occurs |
| LightMajority.ArgMax | scripts/light_majority.py:35 | the chosen index has a maximal count, and every earlier index has a strictly smaller one |
| LightMajority.MajorityFirstMax | scripts/light_majority.py:35 | `max(xs, key=xs.count)` is in `xs`, has a maximal count, and is the first element with that count |
| LightMajority.Majority | scripts/light_majority.py:35 | `max(xs, key=xs.count)`, defined by its body; `MajorityFirstMax` states it |
| LightMajority.CloneMajority | scripts/light_majority.py:34-35 | the majority VJJL of a clone, defined by its body; `CloneMajorityRows` and `StrictMajority` state it |
| LightMajority.CloneMajorityRows | scripts/light_majority.py:34-35 | a clone's majority VJJL is held by one of its rows, and no VJJL is held by more of the clone's rows |
| LightMajority.StrictMajority | scripts/light_majority.py:34-35 | a VJJL held by more than half of a clone's rows is its majority |
| LightMajority.CellClone | scripts/light_majority.py:40 | a cell's clone is the clone of one of its rows |
| LightMajority.LabelOfCell | scripts/light_majority.py:38-42 | a cell carrying its clone's majority VJJL is labelled with it; any other cell's label splits back into its own VJJLs, row by row |
| LightMajority.CellLabels | scripts/light_majority.py:38-42 | exactly the light cells are labelled |
| LightMajority.LabelParts | scripts/light_majority.py:38-42 | every `;`-part of a label is a VJJL of one of the cell's rows |
| LightMajority.CellLabel | scripts/light_majority.py:38-42 | the label of one cell, defined by its body; `LabelOfCell` and `LabelParts` state it |
| LightMajority.MajorityLabels | scripts/light_majority.py:38-42 | the `cluster_dict` of the script, one label per light cell, defined by its body; `CellLabels` and `MajorityLabelledCells` state it |
| LightMajority.CorrectByMajority | scripts/light_majority.py:18-49 | the script fails iff a column it reads is missing |
| LightMajority.JoinedLight | scripts/light_majority.py:27-31 | after the join every row has cell, clone and VJJL |
| LightMajority.OneClonePerCell | scripts/light_majority.py:27-31 | every joined row of a cell carries the clone of that cell's last heavy row |
| LightMajority.MajorityLabelledCells | scripts/light_majority.py:27-42 | a cell is labelled iff it has light rows and heavy rows |
| LightMajority.CorrectByMajorityOutput | scripts/light_majority.py:45-49 | on success the output has the heavy header; its rows are exactly the labelled heavy rows, with clone suffixed by `_` and the label |
| Builds.Keys | docker/immcantation-base/tools/builds.py:15-29 | the fields of a build, one per entry, in file order |
| Builds.CanonicalDistinct | docker/immcantation-base/tools/builds.py:50-58 | the known fields are distinct |
| Builds.Lookup | docker/immcantation-base/tools/builds.py:65 | `build[k]`, defined exactly for the fields present, and then it is that field's entry |
| Builds.LookupEntry | docker/immcantation-base/tools/builds.py:65 | the value found for a field is the one its entry holds |
| Builds.Put | docker/immcantation-base/tools/builds.py:49 | `build[field] = value` keeps the fields in place and adds a new one last |
| Builds.PutLookup | docker/immcantation-base/tools/builds.py:49 | after the update the field holds the value, and every other field is unchanged |
| Builds.Present | docker/immcantation-base/tools/builds.py:59 | the filtered order holds exactly the known fields that are in the build |
| Builds.PresentDistinct | docker/immcantation-base/tools/builds.py:59 | the filtered order has no repeats |
| Builds.Positions | docker/immcantation-base/tools/builds.py:59 | the filtered order is a subsequence of the canonical order |
| Builds.Dumped | docker/immcantation-base/tools/builds.py:64-65 | one entry is dumped per field of the order, in that order |
| Builds.WriteBuild | docker/immcantation-base/tools/builds.py:32-69 | the loop writes `Written`: the known fields present, in canonical order, then the field if it is not a known field; it returns `True` |
| Builds.WrittenKeys | docker/immcantation-base/tools/builds.py:48-67 | the written file has no repeated field, and its fields are the known fields present followed by the written field if it is not known |
| Builds.WrittenField | docker/immcantation-base/tools/builds.py:42 | after a write the field holds the value |
| Builds.WrittenOthers | docker/immcantation-base/tools/builds.py:59-67 | another known field keeps its stored value; another unknown field is no longer in the file |
| Builds.WriteIdempotent | docker/immcantation-base/tools/builds.py:32-69 | writing the same field and value a second time leaves the file unchanged |
| Builds.Written | docker/immcantation-base/tools/builds.py:48-67 | the entries the file holds after a write, defined by its body; `WrittenKeys`, `WrittenField`, `WrittenOthers` and `WriteIdempotent` state it, and `WriteBuild` is proved equal to it |
| Builds.PresentSameKeys | docker/immcantation-base/tools/builds.py:59 | the filtered order depends only on which fields are present |
| Builds.Others | docker/immcantation-base/tools/builds.py:98 | the other fields are exactly the build's fields not in the order |
| Builds.OthersPositions | docker/immcantation-base/tools/builds.py:98 | each other field stands at an increasing position of the build, so the other fields keep the build's file order |
| Builds.OthersPositionsComplete | docker/immcantation-base/tools/builds.py:98 | every field of the build that is not in the order has its position listed, so the other fields are exactly the build's fields that skip the order |
| Builds.Report | docker/immcantation-base/tools/builds.py:72-102 | an unreadable build fails (`x in None`); otherwise there is one line per field, line `j` being `k: build[k]` for the `j`-th field `k` of `ReportOrder` |
| Builds.ReportListsEntries | docker/immcantation-base/tools/builds.py:97-98 | every entry of the build appears as the line `field: value` |
| Builds.ReportOrderPermutation | docker/immcantation-base/tools/builds.py:95-98 | the report order is a permutation of the build's fields, without repeats |
| Builds.ReportOrderShape | docker/immcantation-base/tools/builds.py:95-98 | the report lists the known fields present, in canonical order, then exactly the unknown ones, in the build's file order |
| Builds.ReportOrder | docker/immcantation-base/tools/builds.py:95-98 | the order of the report lines, defined by its body; `ReportOrderPermutation` and `ReportOrderShape` state it |
| Builds.ReportAfterWrite | docker/immcantation-base/tools/builds.py:63-98 | a written file is reported in its own file order |

## Left out

- Reading and writing the TSV tables, the build file's YAML and the command
  line (`sys.argv`, `getArgParser`, the script entry point) are not modelled.
  The tables are given as header plus rows, and the build file as its entries.
- `readBuild` is a parameter: `Some(entries)`, or `None` when the file cannot
  be read or parsed. The YAML values are modelled as strings.
- `reportBuild` prints its report. The model returns the lines and does not
  print them.
- Missing or NaN cells in a table are not modelled: every row of a table has
  every header column.
- A missing column is a `Failure` carrying `KeyError: <column>`. When several
  are missing at once, the model reports the first one in the order the
  script reads them; pandas's exact message is not modelled.
- pandas's behaviour on an empty data frame is not modelled: the model takes
  a lambda over no rows to raise no `KeyError`, and what pandas does with the
  empty result is not modelled. The columns pandas adds when it groups or
  applies over no rows are not modelled either.
- `scripts/light_majority.py` uses `sys.argv` without importing `sys`, so as
  written it stops at line 10 with a `NameError`. The model starts after the
  arguments are read, at line 18, with the cell and clone column names as
  parameters.
- In `scripts/light_majority.py` the model leaves out two columns: the
  `index` column that `reset_index()` adds at line 45, and the index column
  that `to_csv` writes at line 49. The output is the heavy header and the
  relabelled rows.
- LightMajority.CorrectByMajority: a light cell column equal to `VJJL` is
  accepted, as the script accepts it. The lemmas about the labelled cells
  require that the cell column is neither `VJJL` nor the clone column.
- Linkage.ClusterLinkage: Python dictionaries keep insertion order, which the
  language has guaranteed since Python 3.7, and the model follows that order.
  Sets have no order the language guarantees. The model treats the
  inversion's `set(v)` as a membership test, so only the last cluster that
  holds a cell decides its label, whatever order the set is iterated in.
