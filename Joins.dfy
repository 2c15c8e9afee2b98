/**
  The joiner: `df.merge(other[['accn','end','val']].rename(columns={'val': name}),
  on=['accn','end'], how=...)`. A row holds its key and named cells; a cell is
  `None` where pandas would hold NaN.
 */
module Joins {
  import opened Wrappers
  import opened Facts

  type Key = (string, string)

  /** The value columns of the merged frame, by their labels in the script. */
  datatype Column =
    | Revenue             // 'revenue'
    | NetIncome           // 'net_income'
    | CostOfRevenue       // 'cost_of_revenue'
    | CurrentAssets       // 'current_assets'
    | CurrentLiabilities  // 'current_liabilities'
    | Inventory           // 'inventory'
    | TotalLiabilities    // 'total_liabilities'
    | TotalEquity         // 'total_equity'

  datatype Row = Row(accn: string, end: string, cells: map<Column, Option<real>>)

  function RowKey(x: Row): Key { (x.accn, x.end) }

  function FactKey(f: Fact): Key { (f.accn, f.end) }

  function FactKeys(t: seq<Fact>): set<Key>
  {
    if t == [] then {} else {FactKey(t[0])} + FactKeys(t[1..])
  }

  function RowKeys(rows: seq<Row>): set<Key>
  {
    if rows == [] then {} else {RowKey(rows[0])} + RowKeys(rows[1..])
  }

  lemma {:induction false} FactKeysMembership(t: seq<Fact>, k: Key)
    ensures k in FactKeys(t) <==> exists i :: 0 <= i < |t| && FactKey(t[i]) == k
    decreases |t|
  {
    if t != [] {
      FactKeysMembership(t[1..], k);
      if exists i :: 0 <= i < |t[1..]| && FactKey(t[1..][i]) == k {
        var i :| 0 <= i < |t[1..]| && FactKey(t[1..][i]) == k;
        assert FactKey(t[i + 1]) == k;
      }
      if exists i :: 0 <= i < |t| && FactKey(t[i]) == k {
        var i :| 0 <= i < |t| && FactKey(t[i]) == k;
        if i > 0 { assert FactKey(t[1..][i - 1]) == k; }
      }
    }
  }

  lemma {:induction false} RowKeysMembership(rows: seq<Row>, k: Key)
    ensures k in RowKeys(rows) <==> exists i :: 0 <= i < |rows| && RowKey(rows[i]) == k
    decreases |rows|
  {
    if rows != [] {
      RowKeysMembership(rows[1..], k);
      if exists i :: 0 <= i < |rows[1..]| && RowKey(rows[1..][i]) == k {
        var i :| 0 <= i < |rows[1..]| && RowKey(rows[1..][i]) == k;
        assert RowKey(rows[i + 1]) == k;
      }
      if exists i :: 0 <= i < |rows| && RowKey(rows[i]) == k {
        var i :| 0 <= i < |rows| && RowKey(rows[i]) == k;
        if i > 0 { assert RowKey(rows[1..][i - 1]) == k; }
      }
    }
  }

  /** At most one fact per `(accn, end)`. */
  ghost predicate UniqueFactKeys(t: seq<Fact>)
  {
    forall i, j :: 0 <= i < j < |t| ==> FactKey(t[i]) != FactKey(t[j])
  }

  /** At most one row per `(accn, end)`. */
  ghost predicate UniqueRowKeys(rows: seq<Row>)
  {
    forall i, j :: 0 <= i < j < |rows| ==> RowKey(rows[i]) != RowKey(rows[j])
  }

  /** `t[['accn','end','val']].rename(columns={'val': name})` */
  function Project(t: seq<Fact>, name: Column): (rows: seq<Row>)
    ensures |rows| == |t|
    ensures forall i :: 0 <= i < |t| ==>
      RowKey(rows[i]) == FactKey(t[i]) && rows[i].cells == map[name := Some(t[i].val)]
  {
    if t == [] then [] else [Row(t[0].accn, t[0].end, map[name := Some(t[0].val)])] + Project(t[1..], name)
  }

  /** The values of the facts of `t` whose key is `k`, in table order. */
  function ValsAt(t: seq<Fact>, k: Key): (vs: seq<real>)
    ensures |vs| <= |t|
    ensures vs == [] <==> k !in FactKeys(t)
  {
    if t == [] then []
    else if FactKey(t[0]) == k then [t[0].val] + ValsAt(t[1..], k)
    else ValsAt(t[1..], k)
  }

  lemma {:induction false} UniqueFactKeysTail(t: seq<Fact>)
    requires t != [] && UniqueFactKeys(t)
    ensures UniqueFactKeys(t[1..]) && FactKey(t[0]) !in FactKeys(t[1..])
  {
    forall i, j | 0 <= i < j < |t[1..]| ensures FactKey(t[1..][i]) != FactKey(t[1..][j]) {
      assert t[1..][i] == t[i + 1] && t[1..][j] == t[j + 1];
    }
    FactKeysMembership(t[1..], FactKey(t[0]));
  }

  /** With one fact per key, a key matches at most one value. */
  lemma {:induction false} ValsAtUnique(t: seq<Fact>, k: Key)
    requires UniqueFactKeys(t)
    ensures |ValsAt(t, k)| <= 1
    decreases |t|
  {
    if t != [] {
      UniqueFactKeysTail(t);
      ValsAtUnique(t[1..], k);
    }
  }

  lemma ValsAtAtMostOne(t: seq<Fact>, k: Key)
    ensures UniqueFactKeys(t) ==> |ValsAt(t, k)| <= 1
  {
    if UniqueFactKeys(t) { ValsAtUnique(t, k); }
  }

  /** Every matched value is the value of a fact with that key. */
  lemma {:induction false} ValsAtSound(t: seq<Fact>, k: Key, i: nat)
    requires i < |ValsAt(t, k)|
    ensures exists f :: f in t && FactKey(f) == k && f.val == ValsAt(t, k)[i]
    decreases |t|
  {
    if FactKey(t[0]) == k {
      if i > 0 {
        ValsAtSound(t[1..], k, i - 1);
        var f :| f in t[1..] && FactKey(f) == k && f.val == ValsAt(t[1..], k)[i - 1];
        assert f in t;
      } else {
        assert t[0] in t;
      }
    } else {
      ValsAtSound(t[1..], k, i);
      var f :| f in t[1..] && FactKey(f) == k && f.val == ValsAt(t[1..], k)[i];
      assert f in t;
    }
  }

  /** With one fact per key, the only matched value is that fact's. */
  lemma {:induction false} ValsAtOfUniqueFact(t: seq<Fact>, i: nat)
    requires UniqueFactKeys(t) && i < |t|
    ensures ValsAt(t, FactKey(t[i])) == [t[i].val]
    decreases |t|
  {
    UniqueFactKeysTail(t);
    if i == 0 {
      assert ValsAt(t[1..], FactKey(t[0])) == [];
    } else {
      assert t[1..][i - 1] == t[i];
      ValsAtOfUniqueFact(t[1..], i - 1);
      if FactKey(t[0]) == FactKey(t[i]) {
        assert false;
      }
    }
  }

  /** One copy of `x` per matched value, the value stored in column `name`. */
  function Extend(x: Row, name: Column, vs: seq<real>): (rows: seq<Row>)
    ensures |rows| == |vs|
    ensures forall i :: 0 <= i < |vs| ==> rows[i] == x.(cells := x.cells[name := Some(vs[i])])
  {
    if vs == [] then [] else [x.(cells := x.cells[name := Some(vs[0])])] + Extend(x, name, vs[1..])
  }

  /** Inner merge on `(accn, end)`: every pairing of a left row with a matching fact. */
  function InnerMerge(left: seq<Row>, right: seq<Fact>, name: Column): (rows: seq<Row>)
    ensures RowKeys(rows) == RowKeys(left) * FactKeys(right)
    ensures UniqueFactKeys(right) ==> |rows| <= |left|
  {
    if left == [] then []
    else
      var vs := ValsAt(right, RowKey(left[0]));
      var head := Extend(left[0], name, vs);
      var rest := InnerMerge(left[1..], right, name);
      RowKeysAppend(head, rest);
      ValsAtAtMostOne(right, RowKey(left[0]));
      assert RowKeys(left) == {RowKey(left[0])} + RowKeys(left[1..]);
      RowKeysExtend(left[0], name, vs);
      head + rest
  }

  /** Left merge on `(accn, end)`: a left row without a match keeps one copy with a missing cell. */
  function LeftMerge(left: seq<Row>, right: seq<Fact>, name: Column): (rows: seq<Row>)
    ensures RowKeys(rows) == RowKeys(left)
    ensures |rows| >= |left|
    ensures UniqueFactKeys(right) ==> |rows| == |left|
  {
    if left == [] then []
    else
      var vs := ValsAt(right, RowKey(left[0]));
      var head := if vs == [] then [left[0].(cells := left[0].cells[name := None])] else Extend(left[0], name, vs);
      var rest := LeftMerge(left[1..], right, name);
      RowKeysAppend(head, rest);
      ValsAtAtMostOne(right, RowKey(left[0]));
      assert RowKeys(left) == {RowKey(left[0])} + RowKeys(left[1..]);
      RowKeysExtend(left[0], name, vs);
      assert RowKeys(head) == {RowKey(left[0])};
      head + rest
  }

  lemma {:induction false} RowKeysExtend(x: Row, name: Column, vs: seq<real>)
    ensures RowKeys(Extend(x, name, vs)) == if vs == [] then {} else {RowKey(x)}
    decreases |vs|
  {
    if vs != [] {
      RowKeysExtend(x, name, vs[1..]);
      assert Extend(x, name, vs)[1..] == Extend(x, name, vs[1..]);
    }
  }

  lemma {:induction false} RowKeysAppend(a: seq<Row>, b: seq<Row>)
    ensures RowKeys(a + b) == RowKeys(a) + RowKeys(b)
    decreases |a|
  {
    if a == [] {
      assert a + b == b;
    } else {
      assert (a + b)[1..] == a[1..] + b;
      assert (a + b)[0] == a[0];
      RowKeysAppend(a[1..], b);
    }
  }

  lemma {:induction false} UniqueRowKeysTail(rows: seq<Row>)
    requires rows != [] && UniqueRowKeys(rows)
    ensures UniqueRowKeys(rows[1..]) && RowKey(rows[0]) !in RowKeys(rows[1..])
  {
    forall i, j | 0 <= i < j < |rows[1..]| ensures RowKey(rows[1..][i]) != RowKey(rows[1..][j]) {
      assert rows[1..][i] == rows[i + 1] && rows[1..][j] == rows[j + 1];
    }
    RowKeysMembership(rows[1..], RowKey(rows[0]));
  }

  lemma UniqueRowKeysAppend(a: seq<Row>, b: seq<Row>)
    requires UniqueRowKeys(a) && UniqueRowKeys(b) && RowKeys(a) !! RowKeys(b)
    ensures UniqueRowKeys(a + b)
  {
    forall i, j | 0 <= i < j < |a + b| ensures RowKey((a + b)[i]) != RowKey((a + b)[j]) {
      if j >= |a| && i < |a| {
        RowKeysMembership(a, RowKey(a[i]));
        RowKeysMembership(b, RowKey(b[j - |a|]));
      }
    }
  }

  /** With one row per key on the left and one fact per key on the right, the inner merge has one row per key. */
  lemma {:induction false} InnerMergeUniqueKeys(left: seq<Row>, right: seq<Fact>, name: Column)
    requires UniqueRowKeys(left) && UniqueFactKeys(right)
    ensures UniqueRowKeys(InnerMerge(left, right, name))
    decreases |left|
  {
    if left != [] {
      UniqueRowKeysTail(left);
      InnerMergeUniqueKeys(left[1..], right, name);
      var vs := ValsAt(right, RowKey(left[0]));
      ValsAtUnique(right, RowKey(left[0]));
      var head := Extend(left[0], name, vs);
      RowKeysExtend(left[0], name, vs);
      UniqueRowKeysAppend(head, InnerMerge(left[1..], right, name));
    }
  }

  /** Distinct keys: as many keys as rows. */
  lemma {:induction false} UniqueRowKeysCount(rows: seq<Row>)
    requires UniqueRowKeys(rows)
    ensures |RowKeys(rows)| == |rows|
    decreases |rows|
  {
    if rows != [] {
      UniqueRowKeysTail(rows);
      UniqueRowKeysCount(rows[1..]);
    }
  }

  /** A table has no more distinct keys than rows. */
  lemma {:induction false} FactKeysCount(t: seq<Fact>)
    ensures |FactKeys(t)| <= |t|
    decreases |t|
  {
    if t != [] { FactKeysCount(t[1..]); }
  }

  lemma {:induction false} SubsetCount(a: set<Key>, b: set<Key>)
    requires a <= b
    ensures |a| <= |b|
    decreases |a|
  {
    if a != {} {
      var k :| k in a;
      SubsetCount(a - {k}, b - {k});
    }
  }

  /**
    Inner merging a table with one row per key against one with one fact per key
    yields no more rows than the right table has.
   */
  lemma InnerMergeBoundedByRight(left: seq<Row>, right: seq<Fact>, name: Column)
    requires UniqueRowKeys(left) && UniqueFactKeys(right)
    ensures |InnerMerge(left, right, name)| <= |right|
  {
    var rows := InnerMerge(left, right, name);
    InnerMergeUniqueKeys(left, right, name);
    UniqueRowKeysCount(rows);
    SubsetCount(RowKeys(rows), FactKeys(right));
    FactKeysCount(right);
  }

  /** Each inner-merged row is a left row with the value of a fact of the same key in column `name`. */
  lemma {:induction false} InnerMergeRowOrigin(left: seq<Row>, right: seq<Fact>, name: Column, i: nat)
    returns (j: nat, f: Fact)
    requires i < |InnerMerge(left, right, name)|
    ensures j < |left| && f in right && FactKey(f) == RowKey(left[j])
    ensures InnerMerge(left, right, name)[i] == left[j].(cells := left[j].cells[name := Some(f.val)])
    decreases |left|
  {
    var vs := ValsAt(right, RowKey(left[0]));
    var head := Extend(left[0], name, vs);
    var rest := InnerMerge(left[1..], right, name);
    assert InnerMerge(left, right, name) == head + rest;
    if i < |head| {
      ValsAtSound(right, RowKey(left[0]), i);
      f :| f in right && FactKey(f) == RowKey(left[0]) && f.val == vs[i];
      j := 0;
    } else {
      var j';
      j', f := InnerMergeRowOrigin(left[1..], right, name, i - |head|);
      j := j' + 1;
    }
  }

  /** The cell a left merge puts in column `name` for key `k`: a matching fact's value, or missing when none matches. */
  ghost predicate LeftMergedCell(right: seq<Fact>, k: Key, c: Option<real>)
  {
    match c
    case None => k !in FactKeys(right)
    case Some(v) => exists f :: f in right && FactKey(f) == k && f.val == v
  }

  /** Each left-merged row is a left row with a merged cell in column `name`. */
  lemma {:induction false} LeftMergeRowOrigin(left: seq<Row>, right: seq<Fact>, name: Column, i: nat)
    returns (j: nat, c: Option<real>)
    requires i < |LeftMerge(left, right, name)|
    ensures j < |left| && LeftMergedCell(right, RowKey(left[j]), c)
    ensures LeftMerge(left, right, name)[i] == left[j].(cells := left[j].cells[name := c])
    decreases |left|
  {
    var vs := ValsAt(right, RowKey(left[0]));
    var head := if vs == [] then [left[0].(cells := left[0].cells[name := None])] else Extend(left[0], name, vs);
    var rest := LeftMerge(left[1..], right, name);
    assert LeftMerge(left, right, name) == head + rest;
    if i < |head| {
      j := 0;
      if vs == [] {
        c := None;
      } else {
        ValsAtSound(right, RowKey(left[0]), i);
        c := Some(vs[i]);
      }
    } else {
      var j';
      j', c := LeftMergeRowOrigin(left[1..], right, name, i - |head|);
      j := j' + 1;
    }
  }

  /** The value of the fact with key `k`, or missing. */
  function ValAt(right: seq<Fact>, k: Key): Option<real>
  {
    var vs := ValsAt(right, k);
    if vs == [] then None else Some(vs[0])
  }

  /**
    With one fact per key, a left merge keeps every left row exactly once, in
    place, and fills column `name` with the matching value or missing.
   */
  lemma {:induction false} LeftMergeUniqueRight(left: seq<Row>, right: seq<Fact>, name: Column)
    requires UniqueFactKeys(right)
    ensures |LeftMerge(left, right, name)| == |left|
    ensures forall i :: 0 <= i < |left| ==>
      LeftMerge(left, right, name)[i] == left[i].(cells := left[i].cells[name := ValAt(right, RowKey(left[i]))])
    decreases |left|
  {
    if left != [] {
      LeftMergeUniqueRight(left[1..], right, name);
      ValsAtUnique(right, RowKey(left[0]));
      var rows := LeftMerge(left, right, name);
      forall i | 0 <= i < |left|
        ensures rows[i] == left[i].(cells := left[i].cells[name := ValAt(right, RowKey(left[i]))])
      {
        if i > 0 {
          assert rows[i] == LeftMerge(left[1..], right, name)[i - 1];
          assert left[i] == left[1..][i - 1];
        }
      }
    }
  }

  /** Every row has exactly the columns `cols`. */
  ghost predicate HasColumns(rows: seq<Row>, cols: set<Column>)
  {
    forall i :: 0 <= i < |rows| ==> rows[i].cells.Keys == cols
  }

  /** Column `c` holds a value on every row. */
  ghost predicate Filled(rows: seq<Row>, c: Column)
  {
    forall i :: 0 <= i < |rows| ==> c in rows[i].cells && rows[i].cells[c].Some?
  }

  /** Column `c` is missing on every row. */
  ghost predicate Missing(rows: seq<Row>, c: Column)
  {
    forall i :: 0 <= i < |rows| ==> c in rows[i].cells && rows[i].cells[c].None?
  }

  lemma ProjectColumns(t: seq<Fact>, name: Column)
    ensures HasColumns(Project(t, name), {name}) && Filled(Project(t, name), name)
  {
  }

  /** Project keeps the table's keys. */
  lemma {:induction false} ProjectKeys(t: seq<Fact>, name: Column)
    ensures RowKeys(Project(t, name)) == FactKeys(t)
    ensures UniqueFactKeys(t) ==> UniqueRowKeys(Project(t, name))
    decreases |t|
  {
    if t != [] {
      ProjectKeys(t[1..], name);
      assert Project(t, name)[1..] == Project(t[1..], name);
    }
  }

  /** An inner merge adds column `name`, filled, and keeps the other columns' cells. */
  lemma InnerMergeColumns(left: seq<Row>, right: seq<Fact>, name: Column, cols: set<Column>)
    requires HasColumns(left, cols)
    ensures HasColumns(InnerMerge(left, right, name), cols + {name})
    ensures Filled(InnerMerge(left, right, name), name)
  {
    var rows := InnerMerge(left, right, name);
    forall i | 0 <= i < |rows|
      ensures rows[i].cells.Keys == cols + {name} && rows[i].cells[name].Some?
    {
      var j, f := InnerMergeRowOrigin(left, right, name, i);
    }
  }

  lemma InnerMergeKeepsFilled(left: seq<Row>, right: seq<Fact>, name: Column, c: Column)
    requires c != name && Filled(left, c)
    ensures Filled(InnerMerge(left, right, name), c)
  {
    var rows := InnerMerge(left, right, name);
    forall i | 0 <= i < |rows|
      ensures c in rows[i].cells && rows[i].cells[c].Some?
    {
      var j, f := InnerMergeRowOrigin(left, right, name, i);
    }
  }

  /** A left merge adds column `name`. */
  lemma LeftMergeColumns(left: seq<Row>, right: seq<Fact>, name: Column, cols: set<Column>)
    requires HasColumns(left, cols)
    ensures HasColumns(LeftMerge(left, right, name), cols + {name})
  {
    var rows := LeftMerge(left, right, name);
    forall i | 0 <= i < |rows|
      ensures rows[i].cells.Keys == cols + {name}
    {
      var j, c := LeftMergeRowOrigin(left, right, name, i);
    }
  }

  /** A left merge keeps every other filled column filled. */
  lemma LeftMergeKeepsFilled(left: seq<Row>, right: seq<Fact>, name: Column, c: Column)
    requires c != name && Filled(left, c)
    ensures Filled(LeftMerge(left, right, name), c)
  {
    var rows := LeftMerge(left, right, name);
    forall i | 0 <= i < |rows|
      ensures c in rows[i].cells && rows[i].cells[c].Some?
    {
      var j, v := LeftMergeRowOrigin(left, right, name, i);
    }
  }

  /** A left merge keeps every other missing column missing. */
  lemma LeftMergeKeepsMissing(left: seq<Row>, right: seq<Fact>, name: Column, c: Column)
    requires c != name && Missing(left, c)
    ensures Missing(LeftMerge(left, right, name), c)
  {
    var rows := LeftMerge(left, right, name);
    forall i | 0 <= i < |rows|
      ensures c in rows[i].cells && rows[i].cells[c].None?
    {
      var j, v := LeftMergeRowOrigin(left, right, name, i);
    }
  }

  /** Left merging an empty table adds a column that is missing on every row. */
  lemma LeftMergeEmptyMissing(left: seq<Row>, name: Column)
    ensures Missing(LeftMerge(left, [], name), name)
  {
    var rows := LeftMerge(left, [], name);
    forall i | 0 <= i < |rows|
      ensures name in rows[i].cells && rows[i].cells[name].None?
    {
      var j, c := LeftMergeRowOrigin(left, [], name, i);
    }
  }
}
