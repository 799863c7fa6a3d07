/** Column resolution, admission checks and the specifications of the relational
    operators of a table, stated over its schema and rows as values. */
module Algebra {
  import opened Values
  import opened Keys
  import opened Seqs

  // ---------------------------------------------------------------------------
  // Column resolution
  // ---------------------------------------------------------------------------

  /** `col(a)`: the first position holding `a`, or -1 when no attribute has that name. */
  function Col(attribute: seq<string>, a: string): (r: int)
    ensures -1 <= r < |attribute|
    ensures r == -1 <==> a !in attribute
    ensures 0 <= r ==> attribute[r] == a && a !in attribute[..r]
  {
    assert attribute[0..] == attribute;
    ColFrom(attribute, a, 0)
  }

  function ColFrom(attribute: seq<string>, a: string, i: nat): (r: int)
    requires i <= |attribute|
    ensures -1 <= r < |attribute|
    ensures r == -1 <==> a !in attribute[i..]
    ensures 0 <= r ==> i <= r && attribute[r] == a && a !in attribute[i..r]
    decreases |attribute| - i
  {
    if i == |attribute| then -1
    else if attribute[i] == a then i
    else
      assert attribute[i..] == [attribute[i]] + attribute[i + 1..];
      var r := ColFrom(attribute, a, i + 1);
      assert 0 <= r ==> attribute[i..r] == [attribute[i]] + attribute[i + 1..r];
      r
  }

  /** The positions `col` gives for a list of names, in order. */
  function Cols(attribute: seq<string>, names: seq<string>): (r: seq<int>)
    ensures |r| == |names|
    ensures forall j :: 0 <= j < |names| ==> (r[j] == -1 <==> names[j] !in attribute)
  {
    seq(|names|, j requires 0 <= j < |names| => Col(attribute, names[j]))
  }

  /** The position `match` records for one name: the LAST attribute with that
      name, or 0 (the int array's default) when no attribute has it. */
  function MatchPos(attribute: seq<string>, a: string): (r: nat)
    ensures |attribute| == 0 ==> r == 0
    ensures 0 < |attribute| ==> r < |attribute|
    ensures a in attribute ==> attribute[r] == a && a !in attribute[r + 1..]
    ensures a !in attribute ==> r == 0
  {
    if |attribute| == 0 then 0
    else
      var n := |attribute| - 1;
      if attribute[n] == a then n
      else
        assert attribute == attribute[..n] + [attribute[n]];
        var r := MatchPos(attribute[..n], a);
        assert a in attribute ==> attribute[r + 1..] == attribute[..n][r + 1..] + [attribute[n]];
        r
  }

  /** `extract` / `extractDom`: the entries of `xs` at the positions `match` gives for `names`. */
  function Extract<T>(attribute: seq<string>, xs: seq<T>, names: seq<string>): (r: seq<T>)
    requires forall a :: a in names ==> MatchPos(attribute, a) < |xs|
    ensures |r| == |names|
    ensures forall j :: 0 <= j < |names| && names[j] !in attribute ==> 0 < |xs| && r[j] == xs[0]
  {
    assert forall j :: 0 <= j < |names| ==> names[j] in names;
    seq(|names|, j requires 0 <= j < |names| => xs[MatchPos(attribute, names[j])])
  }

  /** With distinct attribute names, `match` and `col` resolve a present name alike. */
  lemma MatchPosIsCol(attribute: seq<string>, a: string)
    requires Distinct(attribute) && a in attribute
    ensures MatchPos(attribute, a) == Col(attribute, a)
  {
  }

  // ---------------------------------------------------------------------------
  // Admission checks
  // ---------------------------------------------------------------------------

  /** `typeCheck`: right arity, and every value's class is exactly its column's domain. */
  function TypeCheck(domain: seq<Domain>, t: Row): (r: bool)
    ensures r <==> |t| == |domain| && forall j :: 0 <= j < |t| ==> DomainOf(t[j]) == domain[j]
  {
    |domain| == |t| && TypeCheckFrom(domain, t, 0)
  }

  function TypeCheckFrom(domain: seq<Domain>, t: Row, j: nat): (r: bool)
    requires |t| == |domain| && j <= |t|
    ensures r <==> forall i :: j <= i < |t| ==> DomainOf(t[i]) == domain[i]
    decreases |t| - j
  {
    j == |t| || (DomainOf(t[j]) == domain[j] && TypeCheckFrom(domain, t, j + 1))
  }

  /** `compatible`: same number of domains and the same domain at every position. */
  function Compatible(domain: seq<Domain>, domain2: seq<Domain>): (r: bool)
    ensures r <==> |domain| == |domain2| && forall j :: 0 <= j < |domain| ==> domain[j] == domain2[j]
    ensures r <==> domain == domain2
  {
    |domain| == |domain2| && CompatibleFrom(domain, domain2, 0)
  }

  function CompatibleFrom(domain: seq<Domain>, domain2: seq<Domain>, j: nat): (r: bool)
    requires |domain| == |domain2| && j <= |domain|
    ensures r <==> forall i :: j <= i < |domain| ==> domain[i] == domain2[i]
    decreases |domain| - j
  {
    j == |domain| || (domain[j] == domain2[j] && CompatibleFrom(domain, domain2, j + 1))
  }

  /** Every row holds exactly n values. */
  predicate Arity(ts: seq<Row>, n: nat) {
    forall i :: 0 <= i < |ts| ==> |ts[i]| == n
  }

  /** Rows drawn from rows of arity n have arity n. */
  lemma ArityOfMembers(ts: seq<Row>, rows: seq<Row>, n: nat)
    requires Arity(ts, n)
    requires forall x :: x in rows ==> x in ts
    ensures Arity(rows, n)
  {
    forall i | 0 <= i < |rows| ensures |rows[i]| == n {
      assert rows[i] in ts;
    }
  }

  // ---------------------------------------------------------------------------
  // Primary keys and the index
  // ---------------------------------------------------------------------------

  /** `match(key)` can be applied to a row of the schema without leaving it. */
  predicate KeyFits(attribute: seq<string>, key: seq<string>) {
    |attribute| > 0 || |key| == 0
  }

  /** The key `insert` files a row under: its values at the key columns. */
  function KeyOf(attribute: seq<string>, key: seq<string>, t: Row): (k: KeyType)
    requires |t| == |attribute| && KeyFits(attribute, key)
    ensures |k| == |key|
    ensures forall j :: 0 <= j < |key| ==> k[j] in t
  {
    Extract(attribute, t, key)
  }

  /** The index after putting each row under its key, first to last. */
  function PutRows(m: map<KeyType, Row>, rows: seq<Row>, attribute: seq<string>, key: seq<string>): map<KeyType, Row>
    requires rows != [] ==> KeyFits(attribute, key)
    requires forall t :: t in rows ==> |t| == |attribute|
  {
    if rows == [] then m
    else
      var t := rows[|rows| - 1];
      PutRows(m, rows[..|rows| - 1], attribute, key)[KeyOf(attribute, key, t) := t]
  }

  /** Putting one more row is one more map update. */
  lemma PutRowsSnoc(m: map<KeyType, Row>, rows: seq<Row>, t: Row, attribute: seq<string>, key: seq<string>)
    requires KeyFits(attribute, key)
    requires forall x :: x in rows ==> |x| == |attribute|
    requires |t| == |attribute|
    ensures PutRows(m, rows + [t], attribute, key) == PutRows(m, rows, attribute, key)[KeyOf(attribute, key, t) := t]
  {
    assert (rows + [t])[..|rows|] == rows;
  }

  /** Successive puts: the keys afterwards are the old keys plus the rows' keys. */
  lemma {:induction false} PutRowsKeys(m: map<KeyType, Row>, rows: seq<Row>, attribute: seq<string>, key: seq<string>, k: KeyType)
    requires KeyFits(attribute, key)
    requires forall t :: t in rows ==> |t| == |attribute|
    ensures k in PutRows(m, rows, attribute, key) <==>
              k in m || exists i :: 0 <= i < |rows| && KeyOf(attribute, key, rows[i]) == k
  {
    if rows != [] {
      var n := |rows| - 1;
      var prefix, t := rows[..n], rows[n];
      PutRowsKeys(m, prefix, attribute, key, k);
      var kt := KeyOf(attribute, key, t);
      assert PutRows(m, rows, attribute, key) == PutRows(m, prefix, attribute, key)[kt := t];
      if k != kt {
        if i :| 0 <= i < |rows| && KeyOf(attribute, key, rows[i]) == k {
          assert i < n && prefix[i] == rows[i];
        }
        if i :| 0 <= i < n && KeyOf(attribute, key, prefix[i]) == k {
          assert prefix[i] == rows[i];
        }
      }
    }
  }

  /** Last write wins: a row whose key no later row repeats is what the key holds. */
  lemma {:induction false} PutRowsLastWins(m: map<KeyType, Row>, rows: seq<Row>, attribute: seq<string>, key: seq<string>, i: nat)
    requires KeyFits(attribute, key)
    requires forall t :: t in rows ==> |t| == |attribute|
    requires i < |rows|
    requires forall j :: i < j < |rows| ==> KeyOf(attribute, key, rows[j]) != KeyOf(attribute, key, rows[i])
    ensures KeyOf(attribute, key, rows[i]) in PutRows(m, rows, attribute, key)
    ensures PutRows(m, rows, attribute, key)[KeyOf(attribute, key, rows[i])] == rows[i]
  {
    var n := |rows| - 1;
    var prefix, t := rows[..n], rows[n];
    assert PutRows(m, rows, attribute, key) == PutRows(m, prefix, attribute, key)[KeyOf(attribute, key, t) := t];
    if i < n {
      assert prefix[i] == rows[i];
      assert forall j :: i < j < n ==> prefix[j] == rows[j];
      PutRowsLastWins(m, prefix, attribute, key, i);
    }
  }

  /** A key no row has keeps its old entry. */
  lemma {:induction false} PutRowsUntouched(m: map<KeyType, Row>, rows: seq<Row>, attribute: seq<string>, key: seq<string>, k: KeyType)
    requires KeyFits(attribute, key)
    requires forall t :: t in rows ==> |t| == |attribute|
    requires k in m
    requires forall i :: 0 <= i < |rows| ==> KeyOf(attribute, key, rows[i]) != k
    ensures k in PutRows(m, rows, attribute, key) && PutRows(m, rows, attribute, key)[k] == m[k]
  {
    if rows != [] {
      var n := |rows| - 1;
      var prefix := rows[..n];
      assert forall i :: 0 <= i < n ==> prefix[i] == rows[i];
      PutRowsUntouched(m, prefix, attribute, key, k);
    }
  }

  // ---------------------------------------------------------------------------
  // Projection
  // ---------------------------------------------------------------------------

  /** The values of one row at the given columns, in the given order. */
  function ProjectRow(t: Row, cols: seq<int>): (r: Row)
    requires forall j :: 0 <= j < |cols| ==> 0 <= cols[j] < |t|
    ensures |r| == |cols|
    ensures forall v :: v in r ==> v in t
  {
    seq(|cols|, j requires 0 <= j < |cols| => t[cols[j]])
  }

  /** One projected row per input row, in order. */
  function ProjectRows(ts: seq<Row>, cols: seq<int>): (r: seq<Row>)
    requires forall i, j :: 0 <= i < |ts| && 0 <= j < |cols| ==> 0 <= cols[j] < |ts[i]|
    ensures |r| == |ts|
    ensures Arity(r, |cols|)
  {
    seq(|ts|, i requires 0 <= i < |ts| => ProjectRow(ts[i], cols))
  }

  /** Projecting onto all attributes, in schema order, gives back the rows unchanged. */
  lemma ProjectOntoAllAttributes(attribute: seq<string>, ts: seq<Row>)
    requires Distinct(attribute)
    requires forall i :: 0 <= i < |ts| ==> |ts[i]| == |attribute|
    ensures forall i, j :: 0 <= i < |ts| && 0 <= j < |attribute| ==> 0 <= Cols(attribute, attribute)[j] < |ts[i]|
    ensures ProjectRows(ts, Cols(attribute, attribute)) == ts
  {
    var cols := Cols(attribute, attribute);
    forall j | 0 <= j < |attribute| ensures cols[j] == j {
      MatchPosIsCol(attribute, attribute[j]);
    }
    forall i | 0 <= i < |ts| ensures ProjectRow(ts[i], cols) == ts[i] {
    }
  }

  /** With distinct attribute names, a projection of well-typed rows is well typed
      against the domains `extractDom(match(attrs), domain)` gives it. */
  lemma ProjectKeepsTyping(attribute: seq<string>, domain: seq<Domain>, ts: seq<Row>, attrs: seq<string>)
    requires |attribute| == |domain| && Distinct(attribute)
    requires forall j :: 0 <= j < |attrs| ==> attrs[j] in attribute
    requires forall i :: 0 <= i < |ts| ==> TypeCheck(domain, ts[i])
    ensures forall i, j :: 0 <= i < |ts| && 0 <= j < |attrs| ==> 0 <= Cols(attribute, attrs)[j] < |ts[i]|
    ensures forall t :: t in ProjectRows(ts, Cols(attribute, attrs)) ==> TypeCheck(Extract(attribute, domain, attrs), t)
  {
    var cols := Cols(attribute, attrs);
    var doms := Extract(attribute, domain, attrs);
    forall j | 0 <= j < |attrs| ensures MatchPos(attribute, attrs[j]) == cols[j] {
      MatchPosIsCol(attribute, attrs[j]);
    }
    forall i | 0 <= i < |ts| ensures TypeCheck(doms, ProjectRow(ts[i], cols)) {
      assert TypeCheck(domain, ts[i]);
      var row := ProjectRow(ts[i], cols);
      assert forall j :: 0 <= j < |row| ==> DomainOf(row[j]) == domain[cols[j]] == doms[j];
    }
  }

  /** Every name of `key` is among `attrs` (`Arrays.asList(attrs).containsAll(...)`). */
  predicate ContainsAll(attrs: seq<string>, key: seq<string>) {
    forall j :: 0 <= j < |key| ==> key[j] in attrs
  }

  /** The key of a projection: the old key when it survives, else all projected names. */
  function ProjectKey(key: seq<string>, attrs: seq<string>): (r: seq<string>)
    ensures ContainsAll(attrs, r)
    ensures r == key || r == attrs
    ensures ContainsAll(attrs, key) <==> r == key
  {
    if ContainsAll(attrs, key) then key else attrs
  }

  /** Projecting onto `attrs` and then onto names `bs` among them is projecting onto `bs`. */
  lemma ProjectProject(attribute: seq<string>, ts: seq<Row>, attrs: seq<string>, bs: seq<string>)
    requires forall j :: 0 <= j < |attrs| ==> attrs[j] in attribute
    requires forall j :: 0 <= j < |bs| ==> bs[j] in attrs
    requires forall i :: 0 <= i < |ts| ==> |ts[i]| == |attribute|
    ensures forall i, j :: 0 <= i < |ts| && 0 <= j < |attrs| ==> 0 <= Cols(attribute, attrs)[j] < |ts[i]|
    ensures forall i, j :: 0 <= i < |ts| && 0 <= j < |bs| ==> 0 <= Cols(attribute, bs)[j] < |ts[i]|
    ensures var ps := ProjectRows(ts, Cols(attribute, attrs));
            (forall i, j :: 0 <= i < |ps| && 0 <= j < |bs| ==> 0 <= Cols(attrs, bs)[j] < |ps[i]|) &&
            ProjectRows(ps, Cols(attrs, bs)) == ProjectRows(ts, Cols(attribute, bs))
  {
    var ca, cb, cab := Cols(attribute, attrs), Cols(attribute, bs), Cols(attrs, bs);
    forall j | 0 <= j < |attrs| ensures 0 <= ca[j] < |attribute| {
    }
    forall j | 0 <= j < |bs|
      ensures 0 <= cab[j] < |attrs| && attrs[cab[j]] == bs[j]
      ensures 0 <= cb[j] < |attribute| && ca[cab[j]] == cb[j]
    {
      var m := Col(attrs, bs[j]);
      assert attrs[m] == bs[j] && attrs[m] in attribute;
    }
    var ps := ProjectRows(ts, ca);
    forall i | 0 <= i < |ts|
      ensures |ps[i]| == |attrs| && ProjectRow(ps[i], cab) == ProjectRow(ts[i], cb)
    {
      forall j | 0 <= j < |bs| ensures ps[i][cab[j]] == ts[i][cb[j]] {
        assert ps[i][cab[j]] == ts[i][ca[cab[j]]];
      }
    }
  }

  // ---------------------------------------------------------------------------
  // Minus and union
  // ---------------------------------------------------------------------------

  /** The predicate `minus` selects with: the row is not contained in `us`. */
  function NotIn(us: seq<Row>): Row -> bool {
    (t: Row) => t !in us
  }

  /** `minus`: the rows of `ts` not contained in `us`. */
  function MinusRows(ts: seq<Row>, us: seq<Row>): seq<Row> {
    Filter(ts, NotIn(us))
  }

  /** Whether `union` inserts a row of the other table: its first value is not a key
      of this table's index, and `insert` accepts it. */
  predicate Admitted(u: Row, index: map<KeyType, Row>, domain: seq<Domain>) {
    |u| > 0 && [u[0]] !in index && TypeCheck(domain, u)
  }

  /** The rows `union` appends, in the other table's order. */
  function UnionAdded(us: seq<Row>, index: map<KeyType, Row>, domain: seq<Domain>): (r: seq<Row>)
    ensures forall u :: u in r ==> u in us && |u| > 0 && [u[0]] !in index && TypeCheck(domain, u)
    ensures r != [] ==> |domain| > 0
  {
    var admitted := (u: Row) => Admitted(u, index, domain);
    FilterMembers(us, admitted);
    var r := Filter(us, admitted);
    assert r != [] ==> r[0] in r;
    r
  }

  /** Scanning one more row of the other table appends it, after whatever precedes
      the appended rows, exactly when it is admitted. */
  lemma UnionAddedStep(before: seq<Row>, us: seq<Row>, i: nat, index: map<KeyType, Row>, domain: seq<Domain>)
    requires i < |us|
    ensures Admitted(us[i], index, domain) ==>
              UnionAdded(us[..i + 1], index, domain) == UnionAdded(us[..i], index, domain) + [us[i]] &&
              before + UnionAdded(us[..i + 1], index, domain) == before + UnionAdded(us[..i], index, domain) + [us[i]]
    ensures !Admitted(us[i], index, domain) ==>
              UnionAdded(us[..i + 1], index, domain) == UnionAdded(us[..i], index, domain)
  {
    assert us[..i + 1][..i] == us[..i];
    var added := UnionAdded(us[..i], index, domain);
    assert before + (added + [us[i]]) == before + added + [us[i]];
  }

  /** Taking away B from "A union B" gives back A's rows, in order, when no row of A is a row of B. */
  lemma MinusAfterUnion(ts: seq<Row>, us: seq<Row>, index: map<KeyType, Row>, domain: seq<Domain>)
    requires forall t :: t in ts ==> t !in us
    ensures MinusRows(ts + UnionAdded(us, index, domain), us) == ts
  {
    var added := UnionAdded(us, index, domain);
    var notIn := NotIn(us);
    FilterAppend(ts, added, notIn);
    FilterKeepsAll(ts, notIn);
    FilterNone(added, notIn);
  }

  // ---------------------------------------------------------------------------
  // Key lookups
  // ---------------------------------------------------------------------------

  /** The index entries filed under `keys`, in the order of `keys`. */
  function ValuesAt(keys: seq<KeyType>, index: map<KeyType, Row>): (r: seq<Row>)
    requires forall i :: 0 <= i < |keys| ==> keys[i] in index
    ensures |r| == |keys|
    ensures forall v :: v in r ==> v in index.Values
  {
    seq(|keys|, i requires 0 <= i < |keys| => index[keys[i]])
  }

  /** `subMap(from, true, to, true).values()` over an ordered index: the entries of
      exactly the keys in [from, to], one per key, in ascending key order. */
  lemma RangeValuesSpec(order: seq<KeyType>, index: map<KeyType, Row>, from: KeyType, to: KeyType)
    requires Sorted(order)
    requires forall k :: k in order <==> k in index
    ensures forall i :: 0 <= i < |RangeKeys(order, from, to)| ==> RangeKeys(order, from, to)[i] in index
    ensures var ks := RangeKeys(order, from, to);
            Sorted(ks) &&
            (forall k :: k in ks <==> k in index && InRange(k, from, to)) &&
            |ValuesAt(ks, index)| == |ks| &&
            (forall i :: 0 <= i < |ks| ==> ValuesAt(ks, index)[i] == index[ks[i]])
  {
    RangeKeysSpec(order, from, to);
  }

  // ---------------------------------------------------------------------------
  // Nested-loop join
  // ---------------------------------------------------------------------------

  /** Column pair k of the join compares equal on rows t and u. */
  predicate ColumnsMatch(t: Row, u: Row, tc: seq<int>, uc: seq<int>, k: nat)
    requires k < |tc| == |uc|
  {
    0 <= tc[k] < |t| && 0 <= uc[k] < |u| && t[tc[k]] == u[uc[k]]
  }

  /** Some column pair compares equal: the source's test, which joins on ANY pair. */
  predicate PairMatches(t: Row, u: Row, tc: seq<int>, uc: seq<int>)
    requires |tc| == |uc|
  {
    exists k :: 0 <= k < |tc| && ColumnsMatch(t, u, tc, uc, k)
  }

  /** Append `x` unless an equal row (`Arrays.equals`) is already there. */
  function AddUnique(rows: seq<Row>, x: Row): (r: seq<Row>)
    ensures rows <= r && x in r
    ensures |r| <= |rows| + 1
  {
    if x in rows then rows else rows + [x]
  }

  /** The rows after pairing row t with each row of us, in order. */
  function JoinRight(rows: seq<Row>, t: Row, us: seq<Row>, tc: seq<int>, uc: seq<int>): seq<Row>
    requires |tc| == |uc|
  {
    if us == [] then rows
    else
      var prev := JoinRight(rows, t, us[..|us| - 1], tc, uc);
      var u := us[|us| - 1];
      if PairMatches(t, u, tc, uc) then AddUnique(prev, t + u) else prev
  }

  /** The rows `join` produces: each row of ts against each row of us, in order. */
  function JoinRows(ts: seq<Row>, us: seq<Row>, tc: seq<int>, uc: seq<int>): seq<Row>
    requires |tc| == |uc|
  {
    if ts == [] then []
    else JoinRight(JoinRows(ts[..|ts| - 1], us, tc, uc), ts[|ts| - 1], us, tc, uc)
  }

  lemma {:induction false} JoinRightSpec(rows: seq<Row>, t: Row, us: seq<Row>, tc: seq<int>, uc: seq<int>)
    requires |tc| == |uc|
    ensures forall x :: x in JoinRight(rows, t, us, tc, uc) <==>
              x in rows || exists j :: 0 <= j < |us| && PairMatches(t, us[j], tc, uc) && x == t + us[j]
    ensures Distinct(rows) ==> Distinct(JoinRight(rows, t, us, tc, uc))
  {
    if us != [] {
      var n := |us| - 1;
      var us' := us[..n];
      JoinRightSpec(rows, t, us', tc, uc);
      assert forall j :: 0 <= j < n ==> us'[j] == us[j];
    }
  }

  /** Every row `join` produces is a row of this table followed by a row of the other
      whose columns match on some pair, every such concatenation is produced, and
      none is produced twice. */
  lemma {:induction false} JoinRowsSpec(ts: seq<Row>, us: seq<Row>, tc: seq<int>, uc: seq<int>)
    requires |tc| == |uc|
    ensures forall x :: x in JoinRows(ts, us, tc, uc) <==>
              exists i, j :: 0 <= i < |ts| && 0 <= j < |us| && PairMatches(ts[i], us[j], tc, uc) && x == ts[i] + us[j]
    ensures Distinct(JoinRows(ts, us, tc, uc))
  {
    if ts != [] {
      var n := |ts| - 1;
      var ts' := ts[..n];
      JoinRowsSpec(ts', us, tc, uc);
      JoinRightSpec(JoinRows(ts', us, tc, uc), ts[n], us, tc, uc);
      assert forall i :: 0 <= i < n ==> ts'[i] == ts[i];
    }
  }

  /** A join of rows of arities n1 and n2 has rows of arity n1 + n2. */
  lemma JoinRowsArity(ts: seq<Row>, us: seq<Row>, tc: seq<int>, uc: seq<int>, n1: nat, n2: nat)
    requires |tc| == |uc| && Arity(ts, n1) && Arity(us, n2)
    ensures Arity(JoinRows(ts, us, tc, uc), n1 + n2)
  {
    JoinRowsSpec(ts, us, tc, uc);
    var js := JoinRows(ts, us, tc, uc);
    forall i | 0 <= i < |js| ensures |js[i]| == n1 + n2 {
      assert js[i] in js;
    }
  }

  // ---------------------------------------------------------------------------
  // Indexed join
  // ---------------------------------------------------------------------------

  /** `indexedJoin`'s renaming of the other table's attributes: "2" appended to each. */
  function Suffixed(names: seq<string>): (r: seq<string>)
    ensures |r| == |names|
    ensures forall i :: 0 <= i < |names| ==> r[i] == names[i] + "2"
  {
    if names == [] then [] else Suffixed(names[..|names| - 1]) + [names[|names| - 1] + "2"]
  }

  /** Position c is a column of every row. */
  predicate ColumnIn(ts: seq<Row>, c: int) {
    forall t :: t in ts ==> 0 <= c < |t|
  }

  /** The rows `indexedJoin` produces: each row of ts followed by the index entry
      filed under the one-value key made of its column c, when there is one. */
  function IndexedJoinRows(ts: seq<Row>, c: int, index2: map<KeyType, Row>): seq<Row>
    requires ColumnIn(ts, c)
  {
    if ts == [] then []
    else
      var t := ts[|ts| - 1];
      var prev := IndexedJoinRows(ts[..|ts| - 1], c, index2);
      if [t[c]] in index2 then prev + [t + index2[[t[c]]]] else prev
  }

  /** Each row of the indexed join is a row of ts followed by its index match, and
      every row of ts with a match contributes. */
  lemma {:induction false} IndexedJoinRowsSpec(ts: seq<Row>, c: int, index2: map<KeyType, Row>)
    requires ColumnIn(ts, c)
    ensures forall x :: x in IndexedJoinRows(ts, c, index2) <==>
              exists i :: 0 <= i < |ts| && 0 <= c < |ts[i]| && [ts[i][c]] in index2 && x == ts[i] + index2[[ts[i][c]]]
  {
    if ts != [] {
      var n := |ts| - 1;
      var ts' := ts[..n];
      assert forall t :: t in ts' ==> t in ts;
      IndexedJoinRowsSpec(ts', c, index2);
      assert forall i :: 0 <= i < n ==> ts'[i] == ts[i];
      var t := ts[n];
      assert t in ts;
      forall x | x in IndexedJoinRows(ts, c, index2)
        ensures exists i :: 0 <= i < |ts| && 0 <= c < |ts[i]| && [ts[i][c]] in index2 && x == ts[i] + index2[[ts[i][c]]]
      {
        if x !in IndexedJoinRows(ts', c, index2) {
          assert 0 <= c < |ts[n]| && [ts[n][c]] in index2 && x == ts[n] + index2[[ts[n][c]]];
        }
      }
    }
  }

  /** One more row of ts adds its match, if it has one, at the end. */
  lemma IndexedJoinRowsStep(ts: seq<Row>, i: nat, c: int, index2: map<KeyType, Row>)
    requires ColumnIn(ts, c) && i < |ts|
    ensures ColumnIn(ts[..i], c) && ColumnIn(ts[..i + 1], c) && 0 <= c < |ts[i]|
    ensures IndexedJoinRows(ts[..i + 1], c, index2) ==
            IndexedJoinRows(ts[..i], c, index2) + (if [ts[i][c]] in index2 then [ts[i] + index2[[ts[i][c]]]] else [])
  {
    assert ts[i] in ts;
    assert forall t :: t in ts[..i + 1] ==> t in ts;
    assert ts[..i + 1][..i] == ts[..i];
  }

  /** The indexed join gives at most one row per row of ts. */
  lemma {:induction false} IndexedJoinRowsLength(ts: seq<Row>, c: int, index2: map<KeyType, Row>)
    requires ColumnIn(ts, c)
    ensures |IndexedJoinRows(ts, c, index2)| <= |ts|
  {
    if ts != [] {
      var n := |ts| - 1;
      IndexedJoinRowsStep(ts, n, c, index2);
      assert ts[..n + 1] == ts;
      IndexedJoinRowsLength(ts[..n], c, index2);
    }
  }

  /** An indexed join of rows of arity n1 with entries of arity n2 has rows of arity n1 + n2. */
  lemma {:induction false} IndexedJoinRowsArity(ts: seq<Row>, c: int, index2: map<KeyType, Row>, n1: nat, n2: nat)
    requires ColumnIn(ts, c) && Arity(ts, n1)
    requires forall k :: k in index2 ==> |index2[k]| == n2
    ensures Arity(IndexedJoinRows(ts, c, index2), n1 + n2)
  {
    if ts != [] {
      var n := |ts| - 1;
      IndexedJoinRowsStep(ts, n, c, index2);
      assert ts[..n + 1] == ts;
      IndexedJoinRowsArity(ts[..n], c, index2, n1, n2);
    }
  }

  /** The indexed join works row by row, so it keeps the order of this table's rows. */
  lemma {:induction false} IndexedJoinRowsAppend(a: seq<Row>, b: seq<Row>, c: int, index2: map<KeyType, Row>)
    requires ColumnIn(a, c) && ColumnIn(b, c)
    ensures IndexedJoinRows(a + b, c, index2) == IndexedJoinRows(a, c, index2) + IndexedJoinRows(b, c, index2)
    decreases |b|
  {
    if b == [] {
      assert a + b == a;
    } else {
      var b' := b[..|b| - 1];
      assert forall i :: 0 <= i < |b'| ==> b'[i] == b[i];
      assert (a + b)[..|a + b| - 1] == a + b';
      IndexedJoinRowsAppend(a, b', c, index2);
    }
  }

  /** When the other table's rows are exactly its index entries, each filed under its
      one-column key at position uc, a one-column nested-loop join and the indexed
      join produce the same rows. Only as sets: a row repeated in ts is joined once by
      `join`, which drops duplicates, and twice by `indexedJoin`, which does not
      (`IndexedJoinKeepsDuplicates`). */
  lemma JoinAgreesWithIndexedJoin(ts: seq<Row>, us: seq<Row>, tc: int, uc: int, index2: map<KeyType, Row>)
    requires ColumnIn(ts, tc)
    requires forall u :: u in us ==> 0 <= uc < |u|
    requires forall u :: u in us ==> [u[uc]] in index2 && index2[[u[uc]]] == u
    requires forall k :: k in index2 ==> index2[k] in us && 0 <= uc < |index2[k]| && k == [index2[k][uc]]
    ensures forall x :: x in JoinRows(ts, us, [tc], [uc]) <==> x in IndexedJoinRows(ts, tc, index2)
  {
    JoinRowsSpec(ts, us, [tc], [uc]);
    IndexedJoinRowsSpec(ts, tc, index2);
    forall t, u | t in ts && u in us
      ensures PairMatches(t, u, [tc], [uc]) <==> t[tc] == u[uc]
    {
      assert PairMatches(t, u, [tc], [uc]) <==> ColumnsMatch(t, u, [tc], [uc], 0);
    }
    forall x | x in IndexedJoinRows(ts, tc, index2)
      ensures x in JoinRows(ts, us, [tc], [uc])
    {
      var i :| 0 <= i < |ts| && 0 <= tc < |ts[i]| && [ts[i][tc]] in index2 && x == ts[i] + index2[[ts[i][tc]]];
      var u := index2[[ts[i][tc]]];
      var j :| 0 <= j < |us| && us[j] == u;
      assert PairMatches(ts[i], us[j], [tc], [uc]);
    }
  }

  /** Pairing t with rows whose matches all concatenate to x adds x once when any
      row matches, and nothing otherwise. */
  lemma {:induction false} JoinRightSingle(rows: seq<Row>, t: Row, us: seq<Row>, tc: seq<int>, uc: seq<int>, x: Row)
    requires |tc| == |uc|
    requires forall j :: 0 <= j < |us| && PairMatches(t, us[j], tc, uc) ==> t + us[j] == x
    ensures JoinRight(rows, t, us, tc, uc) ==
            if exists j :: 0 <= j < |us| && PairMatches(t, us[j], tc, uc) then AddUnique(rows, x) else rows
  {
    if us != [] {
      var n := |us| - 1;
      var us' := us[..n];
      assert forall j :: 0 <= j < n ==> us'[j] == us[j];
      JoinRightSingle(rows, t, us', tc, uc, x);
      var before := exists j :: 0 <= j < n && PairMatches(t, us'[j], tc, uc);
      if before {
        var j :| 0 <= j < n && PairMatches(t, us'[j], tc, uc);
        assert PairMatches(t, us[j], tc, uc);
      }
      if !before && !PairMatches(t, us[n], tc, uc) {
        forall j | 0 <= j < |us| ensures !PairMatches(t, us[j], tc, uc) {
          if j < n {
            assert us'[j] == us[j];
          }
        }
      }
    }
  }

  /** With distinct rows of one arity in ts, the two joins of the lemma above produce
      the same rows in the same order. */
  lemma {:induction false} JoinEqualsIndexedJoin(ts: seq<Row>, us: seq<Row>, tc: int, uc: int, index2: map<KeyType, Row>, n: nat)
    requires ColumnIn(ts, tc) && Arity(ts, n) && Distinct(ts)
    requires forall u :: u in us ==> 0 <= uc < |u|
    requires forall u :: u in us ==> [u[uc]] in index2 && index2[[u[uc]]] == u
    requires forall k :: k in index2 ==> index2[k] in us && 0 <= uc < |index2[k]| && k == [index2[k][uc]]
    ensures JoinRows(ts, us, [tc], [uc]) == IndexedJoinRows(ts, tc, index2)
  {
    if ts != [] {
      var m := |ts| - 1;
      var ts', t := ts[..m], ts[m];
      IndexedJoinRowsStep(ts, m, tc, index2);
      assert ts[..m + 1] == ts;
      assert forall i :: 0 <= i < m ==> ts'[i] == ts[i];
      JoinEqualsIndexedJoin(ts', us, tc, uc, index2, n);
      var prev := IndexedJoinRows(ts', tc, index2);
      assert JoinRows(ts, us, [tc], [uc]) == JoinRight(prev, t, us, [tc], [uc]);
      var key := [t[tc]];
      if key in index2 {
        var w := index2[key];
        forall j | 0 <= j < |us| && PairMatches(t, us[j], [tc], [uc]) ensures t + us[j] == t + w {
          assert ColumnsMatch(t, us[j], [tc], [uc], 0);
          assert us[j] in us;
        }
        JoinRightSingle(prev, t, us, [tc], [uc], t + w);
        var j :| 0 <= j < |us| && us[j] == w;
        assert ColumnsMatch(t, us[j], [tc], [uc], 0);
        IndexedJoinRowsSpec(ts', tc, index2);
        forall i | 0 <= i < m && 0 <= tc < |ts'[i]| && [ts'[i][tc]] in index2
          ensures t + w != ts'[i] + index2[[ts'[i][tc]]]
        {
          assert (t + w)[..n] == t;
          assert (ts'[i] + index2[[ts'[i][tc]]])[..n] == ts'[i];
          assert ts'[i] == ts[i] != ts[m];
        }
        assert t + w !in prev;
      } else {
        forall j | 0 <= j < |us| ensures !PairMatches(t, us[j], [tc], [uc]) {
          assert us[j] in us;
          assert !ColumnsMatch(t, us[j], [tc], [uc], 0);
        }
        JoinRightSingle(prev, t, us, [tc], [uc], t);
      }
    }
  }

  /** A row repeated in this table: `join` produces its concatenation once,
      `indexedJoin` twice. */
  lemma IndexedJoinKeepsDuplicates()
    ensures var t := [IntegerVal(1)];
            JoinRows([t, t], [t], [0], [0]) == [t + t] &&
            IndexedJoinRows([t, t], 0, map[[IntegerVal(1)] := t]) == [t + t, t + t]
  {
    var t := [IntegerVal(1)];
    var index2 := map[[IntegerVal(1)] := t];
    assert [t, t][..1] == [t] && [t][..0] == [];
    assert ColumnsMatch(t, t, [0], [0], 0);
    assert JoinRight([], t, [t], [0], [0]) == [t + t];
    assert JoinRows([t], [t], [0], [0]) == [t + t];
    assert JoinRight([t + t], t, [t], [0], [0]) == [t + t];
    assert JoinRows([t, t], [t], [0], [0]) == JoinRight([t + t], t, [t], [0], [0]);
    assert IndexedJoinRows([t], 0, index2) == [t + t];
  }
}
