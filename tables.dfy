/** The relation itself: a schema, a list of rows that several tables may share,
    and an ordered primary-key index, with insertion and the relational operators. */
module Tables {
  import opened Values
  import opened Keys
  import opened Seqs
  import opened Algebra

  /** A mutable list of rows (`List<Comparable[]>`). Tables hold it by reference, so
      a table built over another table's list sees, and makes, the same changes. */
  class RowList {
    var rows: seq<Row>

    constructor (rows: seq<Row>)
      ensures this.rows == rows
    {
      this.rows := rows;
    }
  }

  class Table {
    const name: string
    const attribute: seq<string>
    const domain: seq<Domain>
    const key: seq<string>
    const tuples: RowList
    /** The index's entries (`index.get`). */
    var index: map<KeyType, Row>
    /** The index's keys in ascending order (the TreeMap's navigation order). */
    var keyOrder: seq<KeyType>

    /** One domain per attribute, one value per attribute in every row, and an index
        whose keys are listed in ascending order and whose every entry is a row of the
        table filed under the key `insert` computes for it. */
    ghost predicate Valid()
      reads this, tuples
    {
      |attribute| == |domain| &&
      Arity(tuples.rows, |attribute|) &&
      Sorted(keyOrder) &&
      (forall k :: k in keyOrder <==> k in index) &&
      (forall k :: k in index ==>
        index[k] in tuples.rows && |index[k]| == |attribute| && KeyFits(attribute, key) &&
        KeyOf(attribute, key, index[k]) == k)
    }

    /** An empty table with a fresh row list and an empty index. */
    constructor Empty(name: string, attribute: seq<string>, domain: seq<Domain>, key: seq<string>)
      requires |attribute| == |domain|
      ensures Valid() && fresh(tuples)
      ensures this.name == name && this.attribute == attribute && this.domain == domain && this.key == key
      ensures tuples.rows == [] && index == map[]
    {
      this.name := name;
      this.attribute := attribute;
      this.domain := domain;
      this.key := key;
      tuples := new RowList([]);
      index := map[];
      keyOrder := [];
    }

    /** A table over an existing row list (shared, not copied), with an empty index. */
    constructor WithRows(name: string, attribute: seq<string>, domain: seq<Domain>, key: seq<string>, tuples: RowList)
      requires |attribute| == |domain|
      requires Arity(tuples.rows, |attribute|)
      ensures Valid()
      ensures this.name == name && this.attribute == attribute && this.domain == domain && this.key == key
      ensures this.tuples == tuples && index == map[]
    {
      this.name := name;
      this.attribute := attribute;
      this.domain := domain;
      this.key := key;
      this.tuples := tuples;
      index := map[];
      keyOrder := [];
    }

    // -------------------------------------------------------------------------
    // Column resolution
    // -------------------------------------------------------------------------

    /** `match`: for each name, the last attribute position holding it, or 0 when
        none does. */
    method Match(column: seq<string>) returns (colPos: seq<nat>)
      ensures |colPos| == |column|
      ensures forall j :: 0 <= j < |column| ==> colPos[j] == MatchPos(attribute, column[j])
    {
      colPos := [];
      for j := 0 to |column|
        invariant |colPos| == j
        invariant forall i :: 0 <= i < j ==> colPos[i] == MatchPos(attribute, column[i])
      {
        var pos := 0;
        for k := 0 to |attribute|
          invariant pos == MatchPos(attribute[..k], column[j])
        {
          assert attribute[..k + 1][..k] == attribute[..k];
          if column[j] == attribute[k] {
            pos := k;
          }
        }
        assert attribute[..|attribute|] == attribute;
        colPos := colPos + [pos];
      }
    }

    /** `extractDom`: the entries of `group` at the given positions. */
    method ExtractDom(colPos: seq<nat>, group: seq<Domain>) returns (obj: seq<Domain>)
      requires forall j :: 0 <= j < |colPos| ==> colPos[j] < |group|
      ensures |obj| == |colPos|
      ensures forall j :: 0 <= j < |colPos| ==> obj[j] == group[colPos[j]]
    {
      obj := [];
      for j := 0 to |colPos|
        invariant |obj| == j
        invariant forall i :: 0 <= i < j ==> obj[i] == group[colPos[i]]
      {
        obj := obj + [group[colPos[j]]];
      }
    }

    /** `extract`: the values of `t` at the columns `match` resolves the names to. */
    method Extract(t: Row, column: seq<string>) returns (tup: Row)
      requires forall a :: a in column ==> MatchPos(attribute, a) < |t|
      ensures |tup| == |column|
      ensures forall j :: 0 <= j < |column| ==> tup[j] == t[MatchPos(attribute, column[j])]
      ensures tup == Algebra.Extract(attribute, t, column)
    {
      var colPos := Match(column);
      tup := [];
      for j := 0 to |column|
        invariant |tup| == j
        invariant forall i :: 0 <= i < j ==> tup[i] == t[colPos[i]]
      {
        tup := tup + [t[colPos[j]]];
      }
    }

    /** The positions `col` gives for each name, as the operators compute them. */
    method ColsOf(names: seq<string>) returns (cols: seq<int>)
      ensures |cols| == |names|
      ensures forall j :: 0 <= j < |names| ==> -1 <= cols[j] < |attribute|
      ensures forall j :: 0 <= j < |names| ==> (cols[j] == -1 <==> names[j] !in attribute)
      ensures cols == Cols(attribute, names)
    {
      cols := [];
      for i := 0 to |names|
        invariant |cols| == i
        invariant forall m :: 0 <= m < i ==> cols[m] == Col(attribute, names[m])
      {
        cols := cols + [Col(attribute, names[i])];
      }
    }

    // -------------------------------------------------------------------------
    // Data manipulation
    // -------------------------------------------------------------------------

    /** `insert`: a row that passes the type check is appended and filed in the index
        under its key, replacing any row filed there before; any other row is refused
        and nothing changes. */
    method Insert(tup: Row) returns (ok: bool)
      requires Valid()
      requires TypeCheck(domain, tup) ==> KeyFits(attribute, key)
      modifies this, tuples
      ensures Valid()
      ensures ok == TypeCheck(domain, tup)
      ensures ok ==> tuples.rows == old(tuples.rows) + [tup]
      ensures ok ==> index == old(index)[KeyOf(attribute, key, tup) := tup]
      ensures ok ==> keyOrder == InsertSorted(old(keyOrder), KeyOf(attribute, key, tup))
      ensures !ok ==> tuples.rows == old(tuples.rows) && index == old(index) && keyOrder == old(keyOrder)
    {
      if TypeCheck(domain, tup) {
        tuples.rows := tuples.rows + [tup];
        var keyVal := Extract(tup, key);
        InsertSortedSpec(keyOrder, keyVal);
        index := index[keyVal := tup];
        keyOrder := InsertSorted(keyOrder, keyVal);
        ok := true;
      } else {
        ok := false;
      }
    }

    // -------------------------------------------------------------------------
    // Relational operators
    // -------------------------------------------------------------------------

    /** `project`: one row per row, in order, holding the values at the columns `col`
        gives for `attrs`; the domains are those `match` gives; the key survives when
        every key attribute is kept, otherwise `attrs` becomes the key. */
    method Project(attrs: seq<string>) returns (r: Table)
      requires Valid()
      requires |attrs| > 0 ==> |attribute| > 0
      requires tuples.rows != [] ==> forall j :: 0 <= j < |attrs| ==> attrs[j] in attribute
      ensures fresh(r) && fresh(r.tuples) && r.Valid()
      ensures r.name == name && r.attribute == attrs && r.key == ProjectKey(key, attrs)
      ensures r.domain == Algebra.Extract(attribute, domain, attrs)
      ensures (forall i, j :: 0 <= i < |tuples.rows| && 0 <= j < |attrs| ==> 0 <= Cols(attribute, attrs)[j] < |tuples.rows[i]|) &&
              r.tuples.rows == ProjectRows(tuples.rows, Cols(attribute, attrs))
      ensures r.index == map[]
    {
      var positions := Match(attrs);
      var colDomain := ExtractDom(positions, domain);
      var newKey := ProjectKey(key, attrs);
      var cols := ColsOf(attrs);
      var ts := tuples.rows;
      var rows: seq<Row> := [];
      for i := 0 to |ts|
        invariant |rows| == i
        invariant forall m :: 0 <= m < i ==> rows[m] == ProjectRow(ts[m], cols)
      {
        var tuple := ts[i];
        var row: Row := [];
        for j := 0 to |cols|
          invariant |row| == j
          invariant forall m :: 0 <= m < j ==> row[m] == tuple[cols[m]]
        {
          row := row + [tuple[cols[j]]];
        }
        rows := rows + [row];
      }
      assert colDomain == Algebra.Extract(attribute, domain, attrs);
      var list := new RowList(rows);
      r := new Table.WithRows(name, attrs, colDomain, newKey, list);
    }

    /** `select(predicate)`: exactly the rows satisfying `p`, in order, same schema. */
    method Select(p: Row -> bool) returns (r: Table)
      requires Valid()
      ensures fresh(r) && fresh(r.tuples) && r.Valid()
      ensures r.name == name && r.attribute == attribute && r.domain == domain && r.key == key
      ensures r.tuples.rows == Filter(tuples.rows, p) && r.index == map[]
    {
      var rows := Filter(tuples.rows, p);
      FilterMembers(tuples.rows, p);
      ArityOfMembers(tuples.rows, rows, |attribute|);
      var list := new RowList(rows);
      r := new Table.WithRows(name, attribute, domain, key, list);
    }

    /** `select(keyVal)`: the row the index files under `keyVal`, if any. */
    method SelectKey(keyVal: KeyType) returns (r: Table)
      requires Valid()
      ensures fresh(r) && fresh(r.tuples) && r.Valid()
      ensures r.name == name && r.attribute == attribute && r.domain == domain && r.key == key
      ensures r.tuples.rows == if keyVal in index then [index[keyVal]] else []
      ensures r.index == map[]
    {
      var rows: seq<Row> := [];
      if keyVal in index {
        rows := rows + [index[keyVal]];
      }
      var list := new RowList(rows);
      r := new Table.WithRows(name, attribute, domain, key, list);
    }

    /** `rangeSelect`: the rows the index files under keys in [from, to], in
        ascending key order. */
    method RangeSelect(from: KeyType, to: KeyType) returns (r: Table)
      requires Valid()
      requires !KeyLess(to, from)
      ensures fresh(r) && fresh(r.tuples) && r.Valid()
      ensures r.name == name && r.attribute == attribute && r.domain == domain && r.key == key
      ensures (forall i :: 0 <= i < |RangeKeys(keyOrder, from, to)| ==> RangeKeys(keyOrder, from, to)[i] in index) &&
              r.tuples.rows == ValuesAt(RangeKeys(keyOrder, from, to), index)
      ensures r.index == map[]
    {
      RangeValuesSpec(keyOrder, index, from, to);
      var rows := ValuesAt(RangeKeys(keyOrder, from, to), index);
      var list := new RowList(rows);
      r := new Table.WithRows(name, attribute, domain, key, list);
    }

    /** `union`: no table when the domains differ. Otherwise a table over THIS table's
        row list (so this table grows too) into which every row of `table2` whose first
        value is not a key of this table's index is inserted, in order. */
    method Union(table2: Table) returns (r: Table?)
      requires Valid() && table2.Valid()
      requires Compatible(domain, table2.domain) ==>
                 forall i :: 0 <= i < |table2.tuples.rows| ==> |table2.tuples.rows[i]| > 0
      requires Compatible(domain, table2.domain) && table2.tuples == tuples ==>
                 UnionAdded(tuples.rows, index, domain) == []
      modifies tuples
      ensures r == null <==> !Compatible(domain, table2.domain)
      ensures r == null ==> tuples.rows == old(tuples.rows)
      ensures r != null ==> fresh(r) && r.Valid() && Valid()
      ensures r != null ==> r.name == name && r.attribute == attribute && r.domain == domain && r.key == key
      ensures r != null ==> r.tuples == tuples
      ensures r != null ==> tuples.rows == old(tuples.rows) + UnionAdded(old(table2.tuples.rows), index, domain)
      ensures r != null ==> r.index == PutRows(map[], UnionAdded(old(table2.tuples.rows), index, domain), attribute, key)
    {
      if !Compatible(domain, table2.domain) {
        return null;
      }
      var t := new Table.WithRows(name, attribute, domain, key, tuples);
      ghost var before := tuples.rows;
      t.InsertUnseen(table2.tuples.rows, index);
      assert Valid();
      r := t;
    }

    /** The loop of `union`: insert, in order, each row of `us` whose first value is
        not a key of `seen`. */
    method InsertUnseen(us: seq<Row>, seen: map<KeyType, Row>)
      requires Valid()
      requires forall i :: 0 <= i < |us| ==> |us[i]| > 0
      modifies this, tuples
      ensures Valid()
      ensures tuples.rows == old(tuples.rows) + UnionAdded(us, seen, domain)
      ensures index == PutRows(old(index), UnionAdded(us, seen, domain), attribute, key)
    {
      ghost var before, was := tuples.rows, index;
      ghost var added: seq<Row> := [];
      for i := 0 to |us|
        invariant Valid()
        invariant added == UnionAdded(us[..i], seen, domain)
        invariant tuples.rows == before + added
        invariant added != [] ==> KeyFits(attribute, key)
        invariant forall t :: t in added ==> |t| == |attribute|
        invariant index == PutRows(was, added, attribute, key)
      {
        var u := us[i];
        UnionAddedStep(before, us, i, seen, domain);
        InsertIfUnseen(u, seen);
        if Admitted(u, seen, domain) {
          PutRowsSnoc(was, added, u, attribute, key);
          added := added + [u];
        }
      }
      assert us[..|us|] == us;
    }

    /** One step of `union`'s loop: insert `u` unless its first value is a key of `seen`. */
    method InsertIfUnseen(u: Row, seen: map<KeyType, Row>)
      requires Valid() && |u| > 0
      modifies this, tuples
      ensures Valid()
      ensures Admitted(u, seen, domain) ==>
                tuples.rows == old(tuples.rows) + [u] && index == old(index)[KeyOf(attribute, key, u) := u]
      ensures !Admitted(u, seen, domain) ==> tuples.rows == old(tuples.rows) && index == old(index)
    {
      if [u[0]] !in seen {
        var ok := Insert(u);
      }
    }

    /** `minus`: no table when the domains differ, else the rows not contained in
        `table2`'s rows, in order (a selection). */
    method Minus(table2: Table) returns (r: Table?)
      requires Valid()
      ensures r == null <==> !Compatible(domain, table2.domain)
      ensures r != null ==> fresh(r) && fresh(r.tuples) && r.Valid()
      ensures r != null ==> r.name == name && r.attribute == attribute && r.domain == domain && r.key == key
      ensures r != null ==> r.tuples.rows == MinusRows(tuples.rows, table2.tuples.rows)
    {
      if !Compatible(domain, table2.domain) {
        return null;
      }
      r := Select(NotIn(table2.tuples.rows));
    }

    /** `join`: every row of this table followed by every row of `table2` that agrees
        with it on ANY of the column pairs, each concatenation once. */
    method Join(attrs1: seq<string>, attrs2: seq<string>, table2: Table) returns (r: Table)
      requires Valid() && table2.Valid()
      requires |attrs1| <= |attrs2|
      requires tuples.rows != [] && table2.tuples.rows != [] ==>
                 (forall k :: 0 <= k < |attrs1| ==> attrs1[k] in attribute && attrs2[k] in table2.attribute)
      requires (|tuples.rows| >= 2 && |table2.tuples.rows| >= 2) ||
               JoinRows(tuples.rows, table2.tuples.rows, Cols(attribute, attrs1), Cols(table2.attribute, attrs2[..|attrs1|])) == []
      ensures fresh(r) && fresh(r.tuples) && r.Valid()
      ensures r.name == name && r.attribute == attribute + table2.attribute
      ensures r.domain == domain + table2.domain && r.key == key
      ensures r.tuples.rows == JoinRows(tuples.rows, table2.tuples.rows, Cols(attribute, attrs1), Cols(table2.attribute, attrs2[..|attrs1|]))
      ensures r.index == map[]
    {
      var tc := ColsOf(attrs1);
      var uc := table2.ColsOf(attrs2[..|attrs1|]);
      var ts, us := tuples.rows, table2.tuples.rows;
      var rows: seq<Row> := [];
      for i := 0 to |ts|
        invariant rows == JoinRows(ts[..i], us, tc, uc)
      {
        assert ts[..i + 1][..i] == ts[..i];
        for j := 0 to |us|
          invariant rows == JoinRight(JoinRows(ts[..i], us, tc, uc), ts[i], us[..j], tc, uc)
        {
          assert us[..j + 1][..j] == us[..j];
          JoinRowsHas(ts, us, tc, uc, i, j);
          rows := JoinPair(rows, ts, us, i, j, tc, uc);
        }
        assert us[..|us|] == us;
      }
      assert ts[..|ts|] == ts;
      JoinRowsArity(ts, us, tc, uc, |attribute|, |table2.attribute|);
      var list := new RowList(rows);
      r := new Table.WithRows(name, attribute + table2.attribute, domain + table2.domain, key, list);
    }

    /** `indexedJoin`: every row of this table followed by the row `table2`'s index
        files under the one-value key made of its first join column, when there is
        one; the other table's attributes get the suffix "2". */
    method IndexedJoin(attrs1: seq<string>, attrs2: seq<string>, table2: Table) returns (r: Table)
      requires Valid() && table2.Valid()
      requires |attrs1| <= |attrs2|
      requires tuples.rows != [] ==> |attrs1| > 0 && attrs1[0] in attribute
      ensures fresh(r) && fresh(r.tuples) && r.Valid()
      ensures r.name == name && r.attribute == attribute + Suffixed(table2.attribute)
      ensures r.domain == domain + table2.domain && r.key == key
      ensures tuples.rows == [] ==> r.tuples.rows == []
      ensures tuples.rows != [] ==> ColumnIn(tuples.rows, Col(attribute, attrs1[0]))
      ensures tuples.rows != [] ==> r.tuples.rows == IndexedJoinRows(tuples.rows, Col(attribute, attrs1[0]), table2.index)
      ensures r.index == map[]
    {
      var tab2atr: seq<string> := [];
      for i := 0 to |table2.attribute|
        invariant |tab2atr| == i
        invariant forall m :: 0 <= m < i ==> tab2atr[m] == table2.attribute[m] + "2"
      {
        tab2atr := tab2atr + [table2.attribute[i] + "2"];
      }
      assert tab2atr == Suffixed(table2.attribute);
      var tc := ColsOf(attrs1);
      // the other table's positions are computed without the offset by this table's
      // width that the source adds, since nothing reads them; only the requirement
      // |attrs1| <= |attrs2| remains of them
      var uc := table2.ColsOf(attrs2[..|attrs1|]);
      var ts := tuples.rows;
      var rows: seq<Row> := [];
      var c := if ts == [] then 0 else tc[0];
      assert ColumnIn(ts, c);
      for i := 0 to |ts|
        invariant ColumnIn(ts[..i], c)
        invariant rows == IndexedJoinRows(ts[..i], c, table2.index)
      {
        IndexedJoinRowsStep(ts, i, c, table2.index);
        var s := table2.SelectKey([ts[i][c]]);
        if s.tuples.rows != [] {
          rows := rows + [ts[i] + s.tuples.rows[0]];
        }
      }
      assert ts[..|ts|] == ts;
      IndexedJoinRowsArity(ts, c, table2.index, |attribute|, |table2.attribute|);
      var list := new RowList(rows);
      r := new Table.WithRows(name, attribute + tab2atr, domain + table2.domain, key, list);
    }
  }

  /** The duplicate scan of `join`: whether no row of `rows` equals `temp` value for value. */
  method IsUnique(rows: seq<Row>, temp: Row) returns (unique: bool)
    ensures unique <==> temp !in rows
  {
    unique := true;
    for l := 0 to |rows|
      invariant unique <==> temp !in rows[..l]
    {
      assert rows[..l + 1] == rows[..l] + [rows[l]];
      if rows[l] == temp {
        unique := false;
      }
    }
    assert rows[..|rows|] == rows;
  }

  /** The innermost loop of `join` for row i of ts and row j of us: on the first
      column pair that agrees, the concatenation is added unless an equal row is
      already there; later agreeing pairs find it there. */
  method JoinPair(rows: seq<Row>, ts: seq<Row>, us: seq<Row>, i: nat, j: nat, tc: seq<int>, uc: seq<int>)
    returns (rows': seq<Row>)
    requires i < |ts| && j < |us| && |tc| == |uc|
    requires forall k :: 0 <= k < |tc| ==> 0 <= tc[k] < |ts[i]| && 0 <= uc[k] < |us[j]|
    requires PairMatches(ts[i], us[j], tc, uc) ==> |ts| >= 2 && |us| >= 2
    ensures rows' == if PairMatches(ts[i], us[j], tc, uc) then AddUnique(rows, ts[i] + us[j]) else rows
  {
    rows' := rows;
    for k := 0 to |tc|
      invariant rows' == if exists m :: 0 <= m < k && ColumnsMatch(ts[i], us[j], tc, uc, m)
                         then AddUnique(rows, ts[i] + us[j]) else rows
    {
      if ts[i][tc[k]] == us[j][uc[k]] {
        assert ColumnsMatch(ts[i], us[j], tc, uc, k);
        // the new row is sized from the second row of each table
        var width := |ts[1]| + |us[1]|;
        var temp := ts[i] + us[j];
        var unique := IsUnique(rows', temp);
        if unique {
          rows' := rows' + [temp];
        }
      }
    }
  }

  /** A row pair that matches on some column pair makes the join non-empty. */
  lemma JoinRowsHas(ts: seq<Row>, us: seq<Row>, tc: seq<int>, uc: seq<int>, i: nat, j: nat)
    requires |tc| == |uc| && i < |ts| && j < |us|
    ensures PairMatches(ts[i], us[j], tc, uc) ==> JoinRows(ts, us, tc, uc) != []
  {
    JoinRowsSpec(ts, us, tc, uc);
    if PairMatches(ts[i], us[j], tc, uc) {
      assert ts[i] + us[j] in JoinRows(ts, us, tc, uc);
    }
  }
}
