# Table: an in-memory relation with a small relational algebra

This project models class `Table` of a teaching database engine (`src/Table.java`).
A table has:

- a name;
- attribute names (`attribute`);
- one declared Java class per column (`domain`);
- the names of its primary-key columns (`key`);
- a list of rows (`tuples`);
- an ordered index from composite key values to rows (`index`, a `TreeMap<KeyType, Comparable[]>`).

Rows enter through `insert`. `insert` refuses a row whose arity or per-column classes do not match the schema exactly. It appends an accepted row and files it in the index under its key values; the last row filed under a key wins. On top of that sit the relational operators:

- `project`;
- `select` by predicate;
- `select` by key;
- `rangeSelect`, over an inclusive key range;
- `union`;
- `minus`;
- a nested-loop `join`;
- `indexedJoin`.

Each operator returns a new table and leaves the receiver alone, except `union`.

The model is in five modules:

- `Values` (`values.dfy`): the boxed scalars a row holds, their classes (`Domain`) and their order. Within a class the order is Java's `compareTo`: integers by value; doubles and floats by `Double.compare` / `Float.compare`, computed from their bit patterns; characters and strings by UTF-16 code unit. A `char` is a 16-bit code unit (`Char16`) and a string a sequence of them. Values of different classes, which Java would refuse to compare, are ordered by class.
- `Keys` (`keys.dfy`): composite keys (`KeyType`) with a lexicographic order. It also holds the strictly ascending key sequence that stands for the TreeMap's navigation order: `InsertSorted` for `put` and `RangeKeys` for `subMap(from, true, to, true)`.
- `Seqs` (`seqs.dfy`): an order-preserving `Filter` (`stream().filter`) and its laws.
- `Algebra` (`algebra.dfy`): value-level specifications and the lemmas about them. These cover:
  - `col`, `match`, `typeCheck` and `compatible`;
  - the key a row is filed under, and the index after a sequence of puts;
  - projection rows, the rows `union` appends, the rows `minus` keeps, the rows `join` and `indexedJoin` produce, and the key-range lookup.
- `Tables` (`tables.dfy`): the imperative part.
  - `RowList` is the `java.util.List` of rows. Tables hold it by reference.
  - `Table` has the schema as constants and `index`/`keyOrder` as fields.
  - `insert` and `union` change state. The loops of `match`, `extract`, `extractDom`, the `col` loops of `project` and `join`, the row loops of `project`, `join` (with its duplicate scan) and `indexedJoin`, and the loop of `union` are methods with loop invariants. Each of these methods is proved against the `Algebra` function that specifies it; `SelectKey` and the duplicate scan `IsUnique` state their result directly. The loops of `col`, `typeCheck` and `compatible`, which only compute a value, are recursive functions.

`Table.Valid()` is the representation invariant every method keeps:

- one domain per attribute;
- one value per attribute in every row;
- an ascending key order listing exactly the index's keys;
- every index entry is a row of the table, filed under the key `insert` computes for it.

Where the source would throw, the model has a precondition:

- `join` sizes each output row from the SECOND row of each table (`tuples.get(1)`). A match therefore needs at least two rows in both tables.
- `col` returns -1 for an unknown name, and that position is then used to index a row.
- `match` on an empty schema.
- `subMap` with `from > to`.
- `union` of a table with itself inserting into the list it iterates (a concurrent modification).
- `u_attrs[i]` in the join column loops needs `|attrs1| <= |attrs2|`.

Two choices follow the code rather than the class's comments:

- `join` emits a row pair as soon as ANY one column pair agrees, not when all agree.
- `union` decides on the first value of the other table's row alone, looked up in THIS table's index. It builds its result over THIS table's row list, so this table grows as well.

## Model

| member | source | states |
|---|---|---|
| `Values.DomainOf` | src/Table.java:588 | the runtime class (`getClass()`) of a value, one class per constructor |
| `Values.StringLess` | src/Table.java:64 | `String.compareTo < 0`: lexicographic on UTF-16 code units, a proper prefix first |
| `Values.DoubleRank` | src/Table.java:64 | a number whose order on bit patterns is `Double.compare`'s: negatives (with -0.0) below +0.0, NaN above all |
| `Values.FloatRank` | src/Table.java:64 | the same for `Float.compare` on 32-bit patterns |
| `Values.ValueLess` | src/Table.java:64 | the key component order: by class across classes, by `compareTo` within one |
| `Values.SameClassLess` | src/Table.java:64 | `compareTo < 0` for two values of one class |
| `Values.SurrogatePairBelowMaxUnit` | src/Table.java:64 | a string starting with a surrogate pair sorts below the code unit 0xFFFF, as UTF-16 comparison does |
| `Values.MinusOneBelowOne` | src/Table.java:64 | -1.0 sorts below 1.0 and -0.0 below +0.0, as `Double.compare` does |
| `Values.DoubleRankInjective` | src/Table.java:64 | distinct double bit patterns have distinct ranks, so the double order is total |
| `Values.FloatRankInjective` | src/Table.java:64 | the same for floats |
| `Values.StringLessIrreflexive` | src/Table.java:64 | string order (`String.compareTo < 0`) is irreflexive |
| `Values.StringLessTransitive` | src/Table.java:64 | string order is transitive |
| `Values.StringLessTotal` | src/Table.java:64 | any two distinct strings are ordered one way |
| `Values.ValueLessIrreflexive` | src/Table.java:64 | the value order used by keys is irreflexive |
| `Values.RankInjective` | src/Table.java:64 | distinct classes have distinct positions in the cross-class order |
| `Values.ValueLessTransitive` | src/Table.java:64 | the value order is transitive, across classes too |
| `Values.ValueLessTotal` | src/Table.java:64 | any two distinct values are ordered one way |
| `Keys.KeyLess` | src/Table.java:64 | the index's key order: component-wise lexicographic, a proper prefix first |
| `Keys.InsertSorted` | src/Table.java:414 | the ascending key view after `put`: the key is placed in order, or the view is unchanged when present |
| `Keys.RangeKeys` | src/Table.java:213 | the keys of the view lying in [from, to], in view order |
| `Keys.KeyLessIrreflexive` | src/Table.java:64 | the key order of the index is irreflexive |
| `Keys.KeyLessTransitive` | src/Table.java:64 | the key order is transitive |
| `Keys.KeyLessTotal` | src/Table.java:64 | the key order is total, so the index is a strict total order on keys |
| `Keys.SortedCons` | src/Table.java:64 | a key sequence with x in front is ascending iff its tail is ascending and x precedes all of it |
| `Keys.InsertSortedSpec` | src/Table.java:414 | `put` keeps the key view strictly ascending, adds exactly the new key, and changes nothing for a key already present |
| `Keys.ReversedRangeIsEmpty` | src/Table.java:213 | no key lies in [from, to] when to < from |
| `Keys.RangeKeysReversed` | src/Table.java:213 | a reversed range selects no key |
| `Keys.RangeKeysSpec` | src/Table.java:213 | the keys of the inclusive range are exactly the index keys in [from, to], in ascending order |
| `Seqs.Filter` | src/Table.java:177 | a filter never lengthens the list |
| `Seqs.FilterMembers` | src/Table.java:177 | an element survives the filter iff it is in the list and satisfies the predicate |
| `Seqs.FilterAppend` | src/Table.java:177 | filtering distributes over concatenation, so relative order is kept |
| `Seqs.FilterKeepsAll` | src/Table.java:257 | a filter every element passes returns the list unchanged |
| `Seqs.FilterNone` | src/Table.java:257 | a filter no element passes returns nothing |
| `Algebra.Cols` | src/Table.java:145-148 | `col` per name, in order; -1 exactly for the names no attribute has |
| `Algebra.Extract` | src/Table.java:565-571 | the entries at `match`'s positions for the names (also `extractDom`, 624-633); an unknown name takes entry 0 |
| `Algebra.KeyOf` | src/Table.java:411-414 | the key `insert` files a row under: one value per key name, each a value of the row |
| `Algebra.PutRows` | src/Table.java:414 | the index after `put` of each row under its key, first to last |
| `Algebra.ProjectRow` | src/Table.java:155-158 | one projected row: one value per column, each a value of the row |
| `Algebra.ProjectRows` | src/Table.java:154-160 | one projected row per row, in order, each with one value per projected column |
| `Algebra.NotIn` | src/Table.java:257 | `minus`'s predicate: the row is not contained in the other table's rows |
| `Algebra.MinusRows` | src/Table.java:257 | the rows `minus` keeps: those not contained in the other table, in order |
| `Algebra.Admitted` | src/Table.java:234-235 | `union` inserts a row iff its first value is not a key of this table's index and it type-checks |
| `Algebra.ValuesAt` | src/Table.java:213 | the index entries of the given keys, one per key, in key order, each an entry of the index |
| `Algebra.ColumnsMatch` | src/Table.java:303 | column pair k holds equal values in the two rows |
| `Algebra.PairMatches` | src/Table.java:302-303 | some column pair agrees: the source's test, which joins on ANY pair |
| `Algebra.AddUnique` | src/Table.java:310-318 | the collected rows extended by the candidate unless an equal row is there; the old rows stay a prefix and the candidate is present |
| `Algebra.JoinRight` | src/Table.java:301-321 | the collected rows after scanning the other table for one row of this table |
| `Algebra.JoinRows` | src/Table.java:299-322 | the rows of the nested loop: each row of this table against each row of the other, in order |
| `Algebra.IndexedJoinRows` | src/Table.java:369-374 | each row of this table followed by the other index's entry under its join column, when there is one, in order |
| `Algebra.IndexedJoinRowsLength` | src/Table.java:369-374 | the indexed join gives at most one row per row of this table |
| `Algebra.JoinRightSingle` | src/Table.java:301-321 | when all matches for a row concatenate to one row, the scan adds it once iff some row matches |
| `Algebra.JoinEqualsIndexedJoin` | src/Table.java:340-380 | for distinct rows of one arity, the one-column nested-loop join and the indexed join give the same rows in the same order |
| `Algebra.IndexedJoinKeepsDuplicates` | src/Table.java:372 | a repeated row of this table: `join` gives its concatenation once, `indexedJoin` twice |
| `Algebra.Col` | src/Table.java:388-395 | the first position holding the name, or -1 exactly when no attribute has it |
| `Algebra.ColFrom` | src/Table.java:390-394 | the scan from position i finds the first occurrence at or after i, or -1 when there is none |
| `Algebra.MatchPos` | src/Table.java:538-556 | the LAST position holding the name, or 0 when the name is absent or the schema is empty |
| `Algebra.MatchPosIsCol` | src/Table.java:545-547 | with distinct attribute names, `match` and `col` agree on a present name |
| `Algebra.TypeCheck` | src/Table.java:581-594 | true iff the row's length is the number of domains and each value's class is exactly its column's domain |
| `Algebra.TypeCheckFrom` | src/Table.java:587-592 | the per-column class test from column j on |
| `Algebra.Compatible` | src/Table.java:517-530 | true iff both tables have as many domains and agree on each, i.e. the domain lists are equal |
| `Algebra.CompatibleFrom` | src/Table.java:523-528 | the per-column domain test from column j on |
| `Algebra.ArityOfMembers` | src/Table.java:177 | rows drawn from rows of arity n have arity n, so a selection stays well formed |
| `Algebra.PutRowsSnoc` | src/Table.java:414 | filing one more row is one more index update |
| `Algebra.PutRowsKeys` | src/Table.java:233-236 | after filing rows, the index keys are the old keys plus the keys of the rows |
| `Algebra.PutRowsLastWins` | src/Table.java:414 | a key holds the last row filed under it |
| `Algebra.PutRowsUntouched` | src/Table.java:414 | a key no filed row has keeps its old entry |
| `Algebra.ProjectOntoAllAttributes` | src/Table.java:154-160 | with distinct names, projecting onto all attributes in order returns the rows unchanged |
| `Algebra.ProjectKeepsTyping` | src/Table.java:139-160 | with distinct names, projected well-typed rows pass the type check against the domains `extractDom(match(attrs))` gives |
| `Algebra.ProjectKey` | src/Table.java:140 | the projection's key is the old key iff every key name is kept, else the projected names; either way the projection contains it |
| `Algebra.ProjectProject` | src/Table.java:145-160 | projecting onto attrs and then onto names among them equals projecting onto those names directly |
| `Algebra.UnionAdded` | src/Table.java:233-236 | every appended row comes from the other table, has a first value not keyed in this index, and passes the type check |
| `Algebra.UnionAddedStep` | src/Table.java:233-236 | scanning one more row of the other table appends it exactly when it is admitted |
| `Algebra.MinusAfterUnion` | src/Table.java:251-260 | when no row of A is a row of B, (A union B) minus B gives A's rows back, in order |
| `Algebra.RangeValuesSpec` | src/Table.java:212-213 | the range lookup returns the entries of exactly the index keys in [from, to], one per key, ascending |
| `Algebra.JoinRightSpec` | src/Table.java:301-319 | scanning the other table for one row adds exactly the matching concatenations and keeps the rows duplicate-free |
| `Algebra.JoinRowsSpec` | src/Table.java:299-322 | a join row is a row of this table followed by a row of the other that agrees on some column pair; every such concatenation appears once |
| `Algebra.JoinRowsArity` | src/Table.java:305-307 | joined rows have the summed arity |
| `Algebra.Suffixed` | src/Table.java:344-347 | each attribute of the other table gets "2" appended, positions kept |
| `Algebra.IndexedJoinRowsSpec` | src/Table.java:369-374 | a row of the indexed join is a row of this table followed by the other table's index entry for its first join column; every row with an entry contributes |
| `Algebra.IndexedJoinRowsStep` | src/Table.java:369-374 | one more row of this table appends its match, if any, at the end |
| `Algebra.IndexedJoinRowsArity` | src/Table.java:372 | rows of the indexed join have the summed arity |
| `Algebra.IndexedJoinRowsAppend` | src/Table.java:369-374 | the indexed join works row by row, so it keeps this table's row order |
| `Algebra.JoinAgreesWithIndexedJoin` | src/Table.java:340-380 | on one column, when the other table's rows are exactly its index entries under that column, both joins produce the same set of rows |
| `Tables.RowList.constructor` | src/Table.java:84 | a list holding the given rows |
| `Tables.Table.Empty` | src/Table.java:78-86 | a valid table with the given schema, a fresh empty row list and an empty index |
| `Tables.Table.WithRows` | src/Table.java:97-106 | a valid table over the given row list, shared and not copied, with an empty index |
| `Tables.Table.Match` | src/Table.java:538-556 | the nested scan yields, per name, the last matching position or 0 |
| `Tables.Table.ExtractDom` | src/Table.java:624-633 | the domains at the given positions, in order |
| `Tables.Table.Extract` | src/Table.java:565-571 | the row's values at the positions `match` gives for the names |
| `Tables.Table.ColsOf` | src/Table.java:287-290 | per name, `col`'s position, -1 exactly for an unknown name |
| `Tables.Table.Insert` | src/Table.java:405-419 | succeeds iff the row type-checks; then it is appended, filed under its key (replacing any earlier entry) and the key order takes the key; otherwise nothing changes; validity is kept |
| `Tables.Table.Project` | src/Table.java:135-163 | one row per row, in order, with the values at `col`'s positions; domains from `match`; the key kept iff contained, else the projected names |
| `Tables.Table.Select` | src/Table.java:173-181 | the rows satisfying the predicate, in order, same schema, receiver unchanged |
| `Tables.Table.SelectKey` | src/Table.java:190-199 | the one row the index files under the key, same schema |
| `Tables.Table.RangeSelect` | src/Table.java:208-217 | the index entries of the keys in [from, to], in ascending key order |
| `Tables.Table.Union` | src/Table.java:227-240 | no table iff the domains differ; else a table over this table's list, which grows by the admitted rows of the other table in order, with those rows in its index |
| `Tables.Table.InsertUnseen` | src/Table.java:233-236 | inserts, in order, the other table's rows whose first value is not keyed in the seen index and which type-check |
| `Tables.Table.InsertIfUnseen` | src/Table.java:234-235 | one step of that loop: insert exactly when the row is admitted |
| `Tables.Table.Minus` | src/Table.java:251-260 | no table iff the domains differ; else this table's rows not contained in the other's, in order |
| `Tables.Table.Join` | src/Table.java:275-329 | the rows of `JoinRows` over `col`'s positions, schemas and domains concatenated, this table's key |
| `Tables.Table.IndexedJoin` | src/Table.java:340-380 | each row followed by the other table's index entry under its first join column, when it exists; other attributes suffixed "2" |
| `Tables.IsUnique` | src/Table.java:310-315 | true iff no collected row equals the candidate value for value |
| `Tables.JoinPair` | src/Table.java:302-319 | for one row pair: the concatenation is added once if some column pair agrees, otherwise nothing changes |
| `Tables.JoinRowsHas` | src/Table.java:303-305 | an agreeing row pair makes the join non-empty, which is when the second-row sizing is reached |

## Left out

- `load` and `save` (object serialization to files), `print` and `printIndex`, and every trace line written to standard output: input/output only.
- The constructor that parses space-separated strings, and `findClass` (reflection through `Class.forName`). The model takes sequences of names and `Domain` tags directly.
- The static counter appended to derived table names. A derived table keeps its left operand's name, because the counter is process-global naming with no effect on the rows.
- `getName`: a plain getter (`name` is a public constant of the class).
- Floating-point arithmetic: `Double` and `Float` values are bit patterns that are only compared, for equality and in `compareTo`'s order.
- `Values.ValueLess`: NaNs with different bit patterns are distinct values here, ordered by bit pattern above every number; Java's `Double.equals` and `compareTo` treat all NaNs as one value.
- `KeyType`, `ArrayUtil.concat` and `ArrayUtils.addAll` are not part of this model. Keys are sequences of values with a lexicographic order, and both concatenations are sequence concatenation. The order across classes (by class, then within the class) is a modelling choice, because `KeyType.compareTo` is not shown.
- Java arrays and `ArrayList`s are immutable sequences inside one operation. Only the shared row list (`RowList`) and the table's index are mutable state.
- `Tables.Table.SelectKey`: on a missing key the source returns a table holding one null row; the model returns a table with no row. `indexedJoin` treats both the same way, because it tests the fetched row for null.
- `Tables.Table.Join`: the source compares column values with reference `==`; the model compares by value, so boxed numbers outside the JVM's small-value cache that the source would not match are matched here.
- `Tables.Table.Minus`: `List.contains` on arrays is reference identity in the source; the model tests value equality, so a row equal to, but not the same array as, a row of the other table is removed here and kept by the source.
- `Tables.Table.Union`: the test `index.containsKey(new KeyType(tuple[0]))` compares a one-value key with the index keys. The model asks whether that one-value key is a key of the index, by equality. `KeyType.compareTo` is not shown, so agreement with it is assumed.
- `Tables.Table.RangeSelect`: a reversed range (`from > to`) makes `subMap` throw, so it is a precondition; `Keys.RangeKeysReversed` states that the key view would give nothing there.
- `Tables.Table.Join`: the crash when a match occurs and either table has fewer than two rows is a precondition, not modelled behaviour.
- `Tables.Table.Union`: the concurrent-modification failure when the other table shares this table's row list and a row is admitted is a precondition.
- Schema well-formedness (one domain per attribute, one value per attribute in each row) is an invariant assumed of every table (`Table.Valid`); the source does not check it on construction.
