/** docker/immcantation-base/tools/builds.py: the build file is a YAML mapping
    of field names to values. `writeBuild` sets one field and rewrites the
    file with the known fields first, in a fixed order; `reportBuild` lists
    every field, the known ones first. The YAML file is its sequence of
    entries in file order, and reading it is `Some(entries)` or `None` when
    it cannot be read. */
module Builds {
  import opened Results
  import opened Sequences

  type Entry = (string, string)

  /** No field occurs twice. */
  predicate Keyed(b: seq<Entry>)
  {
    forall i, j :: 0 <= i < j < |b| ==> b[i].0 != b[j].0
  }

  /** A build: a mapping, its entries in file (insertion) order. */
  type Build = b: seq<Entry> | Keyed(b) witness []

  /** The fields of a build, in order. */
  function Keys(b: seq<Entry>): (ks: seq<string>)
    ensures |ks| == |b| && forall i :: 0 <= i < |b| ==> ks[i] == b[i].0
  {
    seq(|b|, i requires 0 <= i < |b| => b[i].0)
  }

  /** The known fields, in the order the file is written and reported. */
  const Canonical: seq<string> :=
    ["date", "immcantation", "presto", "changeo", "alakazam", "shazam", "tigger", "rdi", "prestor"]

  lemma CanonicalDistinct()
    ensures Distinct(Canonical)
  {
  }

  /** `build[k]`, defined exactly for the fields present. */
  function Lookup(b: seq<Entry>, k: string): (r: Option<string>)
    ensures r.Some? <==> k in Keys(b)
    ensures r.Some? ==> (k, r.value) in b
  {
    if b == [] then None
    else if b[0].0 == k then Some(b[0].1)
    else
      assert forall i :: 0 <= i < |b| - 1 ==> Keys(b[1..])[i] == Keys(b)[i + 1];
      Lookup(b[1..], k)
  }

  /** In a build, the value of a field is the one its entry holds. */
  lemma LookupEntry(b: Build, i: nat)
    requires i < |b|
    ensures Lookup(b, b[i].0) == Some(b[i].1)
  {
    if i > 0 {
      assert b[1..][i - 1] == b[i];
      LookupEntry(b[1..], i - 1);
    }
  }

  /** A build without its first entry, whose field the rest does not hold. */
  function Tail(b: Build): (t: Build)
    requires b != []
    ensures t == b[1..]
    ensures Keys(b) == [b[0].0] + Keys(t) && b[0].0 !in Keys(t)
  {
    assert forall i :: 0 <= i < |b| - 1 ==> b[1..][i] == b[i + 1];
    b[1..]
  }

  /** A new first entry in front of a build that lacks its field. */
  function Cons(e: Entry, rest: Build): (r: Build)
    requires e.0 !in Keys(rest)
    ensures r == [e] + rest
    ensures Keys(r) == [e.0] + Keys(rest)
  {
    KeyedCons(e, rest);
    [e] + rest
  }

  lemma KeyedCons(e: Entry, rest: seq<Entry>)
    requires Keyed(rest) && e.0 !in Keys(rest)
    ensures Keyed([e] + rest)
    ensures Keys([e] + rest) == [e.0] + Keys(rest)
  {
    var r := [e] + rest;
    forall i, j | 0 <= i < j < |r| ensures r[i].0 != r[j].0 {
      if i == 0 {
        assert r[j] == rest[j - 1];
        assert Keys(rest)[j - 1] == r[j].0;
      } else {
        assert r[i] == rest[i - 1] && r[j] == rest[j - 1];
      }
    }
  }

  /** `build[field] = value`: an existing field keeps its place, a new one goes last. */
  function Put(b: Build, k: string, v: string): (r: Build)
    ensures Keys(r) == if k in Keys(b) then Keys(b) else Keys(b) + [k]
  {
    if b == [] then [(k, v)]
    else if b[0].0 == k then Cons((k, v), Tail(b))
    else Cons(b[0], Put(Tail(b), k, v))
  }

  /** After `build[k] = v`, `k` holds `v` and every other field is as before. */
  lemma {:induction false} PutLookup(b: Build, k: string, v: string, k': string)
    ensures Lookup(Put(b, k, v), k') == if k' == k then Some(v) else Lookup(b, k')
  {
    if b != [] && b[0].0 != k {
      PutLookup(b[1..], k, v, k');
      assert ([b[0]] + Put(b[1..], k, v))[1..] == Put(b[1..], k, v);
    } else if b != [] {
      assert ([(k, v)] + b[1..])[1..] == b[1..];
    }
  }

  /** `[x for x in order if x in build]`. */
  function Present(order: seq<string>, b: seq<Entry>): (r: seq<string>)
    ensures forall x :: x in r <==> x in order && x in Keys(b)
  {
    if order == [] then []
    else
      var init := order[..|order| - 1];
      var x := order[|order| - 1];
      assert order == init + [x];
      Present(init, b) + (if x in Keys(b) then [x] else [])
  }

  /** Filtering keeps the order of `order` and, from a list without repeats,
      yields one without repeats. */
  lemma {:induction false} PresentDistinct(order: seq<string>, b: seq<Entry>)
    requires Distinct(order)
    ensures Distinct(Present(order, b))
  {
    if order != [] {
      var init := order[..|order| - 1];
      assert forall i :: 0 <= i < |init| ==> init[i] == order[i];
      PresentDistinct(init, b);
    }
  }

  /** Where each field of `Present(order, b)` stands in `order`: increasing
      positions, so the fields present form a subsequence of `order`. */
  function Positions(order: seq<string>, b: seq<Entry>): (pos: seq<nat>)
    ensures |pos| == |Present(order, b)|
    ensures forall i :: 0 <= i < |pos| ==> pos[i] < |order| && order[pos[i]] == Present(order, b)[i]
    ensures forall i, j :: 0 <= i < j < |pos| ==> pos[i] < pos[j]
  {
    if order == [] then []
    else
      var init := order[..|order| - 1];
      var x := order[|order| - 1];
      var pos := Positions(init, b);
      assert forall i :: 0 <= i < |pos| ==> order[pos[i]] == init[pos[i]];
      if x in Keys(b) then pos + [|order| - 1] else pos
  }

  /** The entries `yaml.dump({k: build[k]})` writes, one per field of `order`. */
  function Dumped(b: seq<Entry>, order: seq<string>): (r: seq<Entry>)
    requires forall k :: k in order ==> k in Keys(b)
    ensures |r| == |order| && Keys(r) == order
  {
    seq(|order|, i requires 0 <= i < |order| => (order[i], Lookup(b, order[i]).value))
  }

  lemma DumpedSnoc(b: seq<Entry>, order: seq<string>, i: nat)
    requires forall k :: k in order ==> k in Keys(b)
    requires i < |order|
    ensures Dumped(b, order[..i + 1]) == Dumped(b, order[..i]) + [(order[i], Lookup(b, order[i]).value)]
  {
    assert order[..i + 1] == order[..i] + [order[i]];
  }

  /** The entries `writeBuild(field, value)` leaves in the file, given what
      `readBuild` returned: without a readable build only the new field;
      otherwise the known fields present after the update, in canonical
      order, and then the new field if it is not a known one. */
  function Written(stored: Option<Build>, field: string, value: string): (w: seq<Entry>)
  {
    match stored
    case None => [(field, value)]
    case Some(b) =>
      var build := Put(b, field, value);
      var order := Present(Canonical, build);
      Dumped(build, order) + if field in order then [] else [(field, value)]
  }

  /** `writeBuild(field, value)`: returns the file written, and `True`. */
  method WriteBuild(stored: Option<Build>, field: string, value: string) returns (file: seq<Entry>, ok: bool)
    ensures file == Written(stored, field, value)
    ensures ok
  {
    var build: Build := [];
    var order: seq<string> := [];
    if stored.Some? {
      build := Put(stored.value, field, value);
      order := Present(Canonical, build);
    }
    assert forall k :: k in order ==> k in Keys(build);
    file := [];
    for i := 0 to |order|
      invariant file == Dumped(build, order[..i])
    {
      DumpedSnoc(build, order, i);
      file := file + [(order[i], Lookup(build, order[i]).value)];
    }
    assert order[..|order|] == order;
    if field !in order {
      file := file + [(field, value)];
    }
    ok := true;
  }

  /** The fields of the written file: the known fields present after the
      update, in canonical order, then the new field if it is not known. */
  lemma WrittenKeys(stored: Option<Build>, field: string, value: string)
    ensures Keyed(Written(stored, field, value))
    ensures stored.Some? ==>
              Keys(Written(stored, field, value)) ==
              Present(Canonical, Put(stored.value, field, value)) + (if field in Canonical then [] else [field])
  {
    if stored.Some? {
      var build := Put(stored.value, field, value);
      var order := Present(Canonical, build);
      var w := Written(stored, field, value);
      CanonicalDistinct();
      PresentDistinct(Canonical, build);
      assert field in Canonical ==> field in order;
      var tail: seq<Entry> := if field in order then [] else [(field, value)];
      assert w == Dumped(build, order) + tail;
      assert field in Keys(build);
      assert field in order <==> field in Canonical;
      assert Keys(tail) == if field in order then [] else [field];
      KeysAppend(Dumped(build, order), tail);
      assert Keys(w) == order + Keys(tail);
      assert Distinct(Keys(w)) by {
        if field !in order {
          DistinctSnoc(order, field);
        } else {
          assert order + [] == order;
        }
      }
      KeyedOfDistinct(w);
    } else {
      KeyedOfDistinct(Written(stored, field, value));
    }
  }

  lemma KeysAppend(x: seq<Entry>, y: seq<Entry>)
    ensures Keys(x + y) == Keys(x) + Keys(y)
  {
  }

  lemma DistinctSnoc(xs: seq<string>, x: string)
    requires Distinct(xs) && x !in xs
    ensures Distinct(xs + [x])
  {
  }

  /** Entries whose fields do not repeat form a build. */
  lemma KeyedOfDistinct(b: seq<Entry>)
    requires Distinct(Keys(b))
    ensures Keyed(b)
  {
    forall i, j | 0 <= i < j < |b| ensures b[i].0 != b[j].0 {
      assert Keys(b)[i] == b[i].0 && Keys(b)[j] == b[j].0;
    }
  }

  /** The written file's entry for a known field: its value after the update. */
  lemma WrittenEntry(b: Build, field: string, value: string, i: nat)
    requires i < |Present(Canonical, Put(b, field, value))|
    ensures i < |Written(Some(b), field, value)|
    ensures Written(Some(b), field, value)[i] ==
            (Present(Canonical, Put(b, field, value))[i],
             Lookup(Put(b, field, value), Present(Canonical, Put(b, field, value))[i]).value)
  {
  }

  /** After a write the field holds the value. */
  lemma WrittenField(stored: Option<Build>, field: string, value: string)
    ensures Lookup(Written(stored, field, value), field) == Some(value)
  {
    if stored.Some? {
      WrittenFieldStored(stored.value, field, value);
    } else {
      var w: Build := [(field, value)];
      assert Written(stored, field, value) == w;
      LookupEntry(w, 0);
    }
  }

  lemma WrittenFieldStored(b: Build, field: string, value: string)
    ensures Lookup(Written(Some(b), field, value), field) == Some(value)
  {
    WrittenKeys(Some(b), field, value);
    var w: Build := Written(Some(b), field, value);
    var build := Put(b, field, value);
    var order := Present(Canonical, build);
    PutLookup(b, field, value, field);
    if field in order {
      var i :| 0 <= i < |order| && order[i] == field;
      WrittenEntry(b, field, value, i);
      LookupEntry(w, i);
    } else {
      assert w == Dumped(build, order) + [(field, value)];
      assert w[|w| - 1] == (field, value);
      LookupEntry(w, |w| - 1);
    }
  }

  /** A known field keeps its stored value unless it is the one written; any
      other unknown field is dropped from the file. */
  lemma WrittenOthers(b: Build, field: string, value: string, k: string)
    requires k != field
    ensures k in Canonical ==> Lookup(Written(Some(b), field, value), k) == Lookup(b, k)
    ensures k !in Canonical ==> Lookup(Written(Some(b), field, value), k) == None
  {
    WrittenKeys(Some(b), field, value);
    var w: Build := Written(Some(b), field, value);
    var build := Put(b, field, value);
    var order := Present(Canonical, build);
    PutLookup(b, field, value, k);
    if k in Canonical && k in Keys(b) {
      assert k in order;
      var i :| 0 <= i < |order| && order[i] == k;
      WrittenEntry(b, field, value, i);
      LookupEntry(w, i);
    }
  }

  /** Writing the same field and value again leaves the file as it is. */
  lemma WriteIdempotent(stored: Option<Build>, field: string, value: string)
    ensures Keyed(Written(stored, field, value))
    ensures Written(Some(Written(stored, field, value)), field, value) == Written(stored, field, value)
  {
    WrittenKeys(stored, field, value);
    if stored.Some? {
      RewriteSame(stored.value, field, value);
    } else {
      RewriteFresh(field, value);
    }
  }

  /** Writing to a file that could not be read, then writing again. */
  lemma RewriteFresh(field: string, value: string)
    ensures Keyed(Written(None, field, value))
    ensures Written(Some(Written(None, field, value)), field, value) == Written(None, field, value)
  {
    var w: Build := [(field, value)];
    assert Written(None, field, value) == w;
    if field in Canonical {
      RewriteFreshKnown(field, value);
    } else {
      RewriteFreshOther(field, value);
    }
  }

  lemma RewriteFreshKnown(field: string, value: string)
    requires field in Canonical
    ensures Keyed([(field, value)])
    ensures Written(Some([(field, value)]), field, value) == [(field, value)]
  {
    var w: Build := [(field, value)];
    var build := Put(w, field, value);
    assert build == w;
    var order := Present(Canonical, build);
    assert Written(Some(w), field, value) == Dumped(build, order) + (if field in order then [] else [(field, value)]);
    assert order == [field] by {
      assert Keys(w) == [field];
      CanonicalDistinct();
      PresentSingle(Canonical, w, field);
    }
    assert Dumped(build, order) == w by {
      LookupEntry(w, 0);
    }
  }

  lemma RewriteFreshOther(field: string, value: string)
    requires field !in Canonical
    ensures Keyed([(field, value)])
    ensures Written(Some([(field, value)]), field, value) == [(field, value)]
  {
    var w: Build := [(field, value)];
    var build := Put(w, field, value);
    assert build == w;
    var order := Present(Canonical, build);
    assert Written(Some(w), field, value) == Dumped(build, order) + (if field in order then [] else [(field, value)]);
    assert order == [] by {
      assert Keys(w) == [field];
      CanonicalDistinct();
      PresentSingle(Canonical, w, field);
    }
    assert Dumped(build, order) == [];
  }

  lemma RewriteSame(b: Build, field: string, value: string)
    ensures Keyed(Written(Some(b), field, value))
    ensures Written(Some(Written(Some(b), field, value)), field, value) == Written(Some(b), field, value)
  {
    WrittenKeys(Some(b), field, value);
    WrittenField(Some(b), field, value);
    var w: Build := Written(Some(b), field, value);
    var build := Put(b, field, value);
    var build' := Put(w, field, value);
    assert Keys(build') == Keys(w);
    PresentSameKeys(Canonical, build', build);
    RewriteDumped(b, field, value);
  }

  lemma RewriteDumped(b: Build, field: string, value: string)
    ensures Keyed(Written(Some(b), field, value))
    ensures forall k :: k in Present(Canonical, Put(b, field, value)) ==>
              k in Keys(Put(Written(Some(b), field, value), field, value))
    ensures Dumped(Put(Written(Some(b), field, value), field, value), Present(Canonical, Put(b, field, value))) ==
            Dumped(Put(b, field, value), Present(Canonical, Put(b, field, value)))
  {
    WrittenKeys(Some(b), field, value);
    var w: Build := Written(Some(b), field, value);
    var build := Put(b, field, value);
    var order := Present(Canonical, build);
    var build' := Put(w, field, value);
    assert Keys(w) == order + (if field in Canonical then [] else [field]);
    assert Keys(build') == Keys(w);
    forall i | 0 <= i < |order| ensures Lookup(build', order[i]) == Lookup(build, order[i]) {
      RewriteLookup(b, field, value, i);
    }
    DumpedSameValues(build', build, order);
  }

  lemma RewriteLookup(b: Build, field: string, value: string, i: nat)
    requires i < |Present(Canonical, Put(b, field, value))|
    ensures Keyed(Written(Some(b), field, value))
    ensures Lookup(Put(Written(Some(b), field, value), field, value), Present(Canonical, Put(b, field, value))[i]) ==
            Lookup(Put(b, field, value), Present(Canonical, Put(b, field, value))[i])
  {
    WrittenKeys(Some(b), field, value);
    var w: Build := Written(Some(b), field, value);
    var build := Put(b, field, value);
    var k := Present(Canonical, build)[i];
    PutLookup(w, field, value, k);
    PutLookup(b, field, value, k);
    if k == field {
      WrittenField(Some(b), field, value);
    } else {
      WrittenEntry(b, field, value, i);
      LookupEntry(w, i);
    }
  }

  lemma DumpedSameValues(b1: seq<Entry>, b2: seq<Entry>, order: seq<string>)
    requires forall i :: 0 <= i < |order| ==> order[i] in Keys(b1) && order[i] in Keys(b2)
    requires forall i :: 0 <= i < |order| ==> Lookup(b1, order[i]) == Lookup(b2, order[i])
    ensures forall k :: k in order ==> k in Keys(b1) && k in Keys(b2)
    ensures Dumped(b1, order) == Dumped(b2, order)
  {
  }

  /** Filtering depends only on which fields are present. */
  lemma {:induction false} PresentSameKeys(order: seq<string>, b: seq<Entry>, c: seq<Entry>)
    requires forall x :: x in order ==> (x in Keys(b) <==> x in Keys(c))
    ensures Present(order, b) == Present(order, c)
  {
    if order != [] {
      var init := order[..|order| - 1];
      PresentSameKeys(init, b, c);
    }
  }

  lemma PresentSingle(order: seq<string>, b: seq<Entry>, k: string)
    requires Keys(b) == [k] && Distinct(order)
    ensures Present(order, b) == if k in order then [k] else []
  {
    PresentDistinct(order, b);
    var r := Present(order, b);
    if k in order {
      assert k in r;
    }
  }

  // ---------------------------------------------------------------------------
  // reportBuild

  /** The report order: the known fields present, in canonical order, then the
      other fields in file order. */
  function ReportOrder(b: Build): (ks: seq<string>)
  {
    Present(Canonical, b) + Others(Keys(b), Present(Canonical, b))
  }

  /** `[k for k in build if k not in order]`. */
  function Others(keys: seq<string>, order: seq<string>): (r: seq<string>)
    ensures forall x :: x in r <==> x in keys && x !in order
  {
    if keys == [] then []
    else
      var init := keys[..|keys| - 1];
      var x := keys[|keys| - 1];
      assert keys == init + [x];
      Others(init, order) + (if x !in order then [x] else [])
  }
  /** Where each field of `Others(keys, order)` stands in `keys`: increasing
      positions, so the other fields keep the file order of `keys`. */
  function OthersPositions(keys: seq<string>, order: seq<string>): (pos: seq<nat>)
    ensures |pos| == |Others(keys, order)|
    ensures forall i :: 0 <= i < |pos| ==> pos[i] < |keys| && keys[pos[i]] == Others(keys, order)[i]
    ensures forall i, j :: 0 <= i < j < |pos| ==> pos[i] < pos[j]
  {
    if keys == [] then []
    else
      var init := keys[..|keys| - 1];
      var x := keys[|keys| - 1];
      var pos := OthersPositions(init, order);
      var others := Others(init, order);
      assert forall i :: 0 <= i < |pos| ==> keys[pos[i]] == init[pos[i]];
      if x !in order then
        assert Others(keys, order) == others + [x];
        pos + [|keys| - 1]
      else
        assert Others(keys, order) == others;
        pos
  }
  /** Every field of `keys` outside `order` has its position listed, so the
      other fields are exactly the subsequence of `keys` that skips `order`. */
  lemma {:induction false} OthersPositionsComplete(keys: seq<string>, order: seq<string>, j: nat)
    requires j < |keys| && keys[j] !in order
    ensures j in OthersPositions(keys, order)
  {
    var n := |keys| - 1;
    var init := keys[..n];
    var pos := OthersPositions(init, order);
    var tail := if keys[n] !in order then [n] else [];
    assert OthersPositions(keys, order) == pos + tail;
    if j < n {
      assert init[j] == keys[j];
      OthersPositionsComplete(init, order, j);
      assert j in pos;
    } else {
      assert j == n && tail == [n];
    }
  }



  /** `reportBuild()`: one `field: value` line per field in report order; an
      unreadable build is an error (`x in None` raises). */
  function Report(stored: Option<Build>): (r: Result<seq<string>>)
    ensures r.Failure? <==> stored.None?
    ensures r.Success? ==> |r.value| == |stored.value| == |ReportOrder(stored.value)|
    ensures r.Success? ==> forall j :: 0 <= j < |r.value| ==>
              Lookup(stored.value, ReportOrder(stored.value)[j]).Some? &&
              r.value[j] == ReportOrder(stored.value)[j] + ": " + Lookup(stored.value, ReportOrder(stored.value)[j]).value
  {
    match stored
    case None => Failure("TypeError: argument of type 'NoneType' is not iterable")
    case Some(b) =>
      var order := ReportOrder(b);
      ReportOrderPermutation(b);
      Success(seq(|order|, i requires 0 <= i < |order| => order[i] + ": " + Lookup(b, order[i]).value))
  }

  /** Every entry of the build is reported as its own `field: value` line. */
  lemma ReportListsEntries(b: Build, i: nat)
    requires i < |b|
    ensures Report(Some(b)).Success?
    ensures b[i].0 + ": " + b[i].1 in Report(Some(b)).value
  {
    var order := ReportOrder(b);
    ReportOrderPermutation(b);
    assert Keys(b)[i] == b[i].0;
    assert b[i].0 in multiset(Keys(b));
    assert b[i].0 in order;
    var j :| 0 <= j < |order| && order[j] == b[i].0;
    LookupEntry(b, i);
    assert Report(Some(b)).value[j] == b[i].0 + ": " + b[i].1;
  }

  /** Filtering a list without repeats leaves one without repeats. */
  lemma {:induction false} OthersDistinct(keys: seq<string>, order: seq<string>)
    requires Distinct(keys)
    ensures Distinct(Others(keys, order))
  {
    if keys != [] {
      var init := keys[..|keys| - 1];
      assert forall i :: 0 <= i < |init| ==> init[i] == keys[i];
      OthersDistinct(init, order);
    }
  }

  /** In a list without repeats every element occurs once. */
  lemma {:induction false} DistinctCount(xs: seq<string>, x: string)
    requires Distinct(xs)
    ensures multiset(xs)[x] == if x in xs then 1 else 0
  {
    if xs != [] {
      var init := xs[..|xs| - 1];
      assert xs == init + [xs[|xs| - 1]];
      assert forall i :: 0 <= i < |init| ==> init[i] == xs[i];
      DistinctCount(init, x);
    }
  }

  /** The report names every field of the build exactly once: its order is a
      permutation of the build's fields. */
  lemma ReportOrderPermutation(b: Build)
    ensures Distinct(ReportOrder(b))
    ensures multiset(ReportOrder(b)) == multiset(Keys(b))
    ensures |ReportOrder(b)| == |b|
  {
    var keys := Keys(b);
    var known := Present(Canonical, b);
    var others := Others(keys, known);
    var r := ReportOrder(b);
    CanonicalDistinct();
    PresentDistinct(Canonical, b);
    assert Distinct(keys) by {
      forall i, j | 0 <= i < j < |keys| ensures keys[i] != keys[j] {
        assert keys[i] == b[i].0 && keys[j] == b[j].0;
      }
    }
    OthersDistinct(keys, known);
    assert Distinct(r) by {
      forall i, j | 0 <= i < j < |r| ensures r[i] != r[j] {
        if j < |known| {
        } else if i >= |known| {
          assert r[i] == others[i - |known|] && r[j] == others[j - |known|];
        } else {
          assert r[i] in known && r[j] == others[j - |known|];
        }
      }
    }
    forall x ensures multiset(r)[x] == multiset(keys)[x] {
      DistinctCount(r, x);
      DistinctCount(keys, x);
    }
    assert multiset(r) == multiset(keys);
    assert |r| == |multiset(r)| == |multiset(keys)| == |keys|;
  }

  /** The report lists the known fields present, in canonical order (see
      `Positions`), and then the other fields, in the build's file order: the
      field at report position `|known| + i` is the build's field at position
      `OthersPositions(..)[i]`, and those positions increase and miss no
      other field (`OthersPositionsComplete`). */
  lemma ReportOrderShape(b: Build)
    ensures ReportOrder(b)[..|Present(Canonical, b)|] == Present(Canonical, b)
    ensures forall k :: k in ReportOrder(b)[|Present(Canonical, b)|..] <==> k in Keys(b) && k !in Canonical
    ensures |ReportOrder(b)| == |Present(Canonical, b)| + |OthersPositions(Keys(b), Present(Canonical, b))|
    ensures forall i :: 0 <= i < |OthersPositions(Keys(b), Present(Canonical, b))| ==>
              ReportOrder(b)[|Present(Canonical, b)| + i] == Keys(b)[OthersPositions(Keys(b), Present(Canonical, b))[i]]
  {
    var known := Present(Canonical, b);
    assert ReportOrder(b)[|known|..] == Others(Keys(b), known);
  }

  /** A written file is already in report order, so its report lists its
      entries as they stand in the file. */
  lemma ReportAfterWrite(stored: Option<Build>, field: string, value: string)
    ensures Keyed(Written(stored, field, value))
    ensures ReportOrder(Written(stored, field, value)) == Keys(Written(stored, field, value))
  {
    WrittenKeys(stored, field, value);
    var w: Build := Written(stored, field, value);
    var known := Present(Canonical, w);
    if stored.Some? {
      var build := Put(stored.value, field, value);
      var order := Present(Canonical, build);
      PresentSameKeys(Canonical, w, build);
      assert known == order;
      var tail := if field in Canonical then [] else [field];
      assert Keys(w) == order + tail;
      OthersAppend(order, tail, order);
      OthersNone(order, order);
      assert Others(tail, order) == tail;
    } else {
      CanonicalDistinct();
      PresentSingle(Canonical, w, field);
      assert Keys(w) == [field];
      assert Others([field], known) == [] + (if field !in known then [field] else []) by {
        assert [field][..0] == [];
      }
    }
  }

  lemma {:induction false} OthersAppend(xs: seq<string>, ys: seq<string>, order: seq<string>)
    ensures Others(xs + ys, order) == Others(xs, order) + Others(ys, order)
    decreases |ys|
  {
    if ys == [] {
      assert xs + ys == xs;
    } else {
      var ys' := ys[..|ys| - 1];
      assert (xs + ys)[..|xs + ys| - 1] == xs + ys';
      OthersAppend(xs, ys', order);
    }
  }

  lemma {:induction false} OthersNone(keys: seq<string>, order: seq<string>)
    requires forall x :: x in keys ==> x in order
    ensures Others(keys, order) == []
  {
    if keys != [] {
      OthersNone(keys[..|keys| - 1], order);
    }
  }
}
