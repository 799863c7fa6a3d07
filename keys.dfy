/** Composite primary keys, their lexicographic order, and the ascending key
    sequence that stands for the ordered (TreeMap) index. */
module Keys {
  import opened Values

  /** A composite key: the values of the key columns, in key order. */
  type KeyType = seq<Value>

  /** Component-wise lexicographic order; a proper prefix comes first. */
  predicate KeyLess(a: KeyType, b: KeyType) {
    if a == [] then b != []
    else if b == [] then false
    else ValueLess(a[0], b[0]) || (a[0] == b[0] && KeyLess(a[1..], b[1..]))
  }

  lemma {:induction false} KeyLessIrreflexive(a: KeyType)
    ensures !KeyLess(a, a)
  {
    if a != [] {
      ValueLessIrreflexive(a[0]);
      KeyLessIrreflexive(a[1..]);
    }
  }

  lemma {:induction false} KeyLessTransitive(a: KeyType, b: KeyType, c: KeyType)
    requires KeyLess(a, b) && KeyLess(b, c)
    ensures KeyLess(a, c)
  {
    if a != [] {
      if a[0] == b[0] && b[0] == c[0] {
        ValueLessIrreflexive(a[0]);
        KeyLessTransitive(a[1..], b[1..], c[1..]);
      } else if ValueLess(a[0], b[0]) && ValueLess(b[0], c[0]) {
        ValueLessTransitive(a[0], b[0], c[0]);
      }
    }
  }

  lemma {:induction false} KeyLessTotal(a: KeyType, b: KeyType)
    ensures a == b || KeyLess(a, b) || KeyLess(b, a)
  {
    if a != [] && b != [] {
      ValueLessTotal(a[0], b[0]);
      if a[0] == b[0] {
        KeyLessTotal(a[1..], b[1..]);
        if a[1..] == b[1..] {
          assert a == [a[0]] + a[1..] && b == [b[0]] + b[1..];
        }
      }
    }
  }

  /** Strictly ascending: the key order of a TreeMap's key set. */
  ghost predicate Sorted(s: seq<KeyType>) {
    forall i, j :: 0 <= i < j < |s| ==> KeyLess(s[i], s[j])
  }

  /** The key sequence after `put(k, _)`: unchanged when k is already a key. */
  function InsertSorted(s: seq<KeyType>, k: KeyType): seq<KeyType>
  {
    if s == [] then [k]
    else if k == s[0] then s
    else if KeyLess(k, s[0]) then [k] + s
    else [s[0]] + InsertSorted(s[1..], k)
  }

  /** A key sequence is sorted with x in front iff its tail is sorted and x precedes every key of it. */
  lemma SortedCons(x: KeyType, t: seq<KeyType>)
    ensures Sorted([x] + t) <==> Sorted(t) && forall y :: y in t ==> KeyLess(x, y)
  {
    var s := [x] + t;
    if Sorted(t) && forall y :: y in t ==> KeyLess(x, y) {
      forall i, j | 0 <= i < j < |s| ensures KeyLess(s[i], s[j]) {
        if i > 0 {
          assert s[i] == t[i - 1] && s[j] == t[j - 1];
        } else {
          assert s[j] == t[j - 1] && s[j] in t;
        }
      }
    }
    if Sorted(s) {
      forall i, j | 0 <= i < j < |t| ensures KeyLess(t[i], t[j]) {
        assert t[i] == s[i + 1] && t[j] == s[j + 1];
      }
      forall y | y in t ensures KeyLess(x, y) {
        var j :| 0 <= j < |t| && t[j] == y;
        assert s[0] == x && s[j + 1] == y;
        assert KeyLess(s[0], s[j + 1]);
      }
    }
  }

  lemma {:induction false} InsertSortedSpec(s: seq<KeyType>, k: KeyType)
    requires Sorted(s)
    ensures Sorted(InsertSorted(s, k))
    ensures forall x :: x in InsertSorted(s, k) <==> x in s || x == k
    ensures k in s ==> InsertSorted(s, k) == s
  {
    if s == [] {
    } else if k == s[0] {
    } else {
      assert s == [s[0]] + s[1..];
      SortedCons(s[0], s[1..]);
      if KeyLess(k, s[0]) {
        forall y | y in s ensures KeyLess(k, y) {
          if y != s[0] {
            KeyLessTransitive(k, s[0], y);
          }
        }
        SortedCons(k, s);
        if k in s {
          KeyLessIrreflexive(k);
        }
      } else {
        KeyLessTotal(k, s[0]);
        var rest := InsertSorted(s[1..], k);
        InsertSortedSpec(s[1..], k);
        SortedCons(s[0], rest);
      }
    }
  }

  /** `from <= k <= to` in the key order. */
  predicate InRange(k: KeyType, from: KeyType, to: KeyType) {
    !KeyLess(k, from) && !KeyLess(to, k)
  }

  /** The keys of `s` that lie in the inclusive range, in the order of `s`. */
  function RangeKeys(s: seq<KeyType>, from: KeyType, to: KeyType): seq<KeyType>
  {
    if s == [] then []
    else (if InRange(s[0], from, to) then [s[0]] else []) + RangeKeys(s[1..], from, to)
  }

  /** No key lies in a range whose upper end is below its lower end. */
  lemma ReversedRangeIsEmpty(k: KeyType, from: KeyType, to: KeyType)
    requires KeyLess(to, from)
    ensures !InRange(k, from, to)
  {
    if InRange(k, from, to) {
      KeyLessTotal(k, from);
      if KeyLess(from, k) {
        KeyLessTransitive(to, from, k);
      }
    }
  }

  /** A reversed range selects nothing (the index itself refuses such a range). */
  lemma {:induction false} RangeKeysReversed(s: seq<KeyType>, from: KeyType, to: KeyType)
    requires KeyLess(to, from)
    ensures RangeKeys(s, from, to) == []
  {
    if s != [] {
      ReversedRangeIsEmpty(s[0], from, to);
      RangeKeysReversed(s[1..], from, to);
    }
  }

  /** `subMap(from, true, to, true).keySet()`: exactly the keys in [from, to], ascending. */
  lemma {:induction false} RangeKeysSpec(s: seq<KeyType>, from: KeyType, to: KeyType)
    requires Sorted(s)
    ensures Sorted(RangeKeys(s, from, to))
    ensures forall k :: k in RangeKeys(s, from, to) <==> k in s && InRange(k, from, to)
  {
    if s != [] {
      RangeKeysSpec(s[1..], from, to);
      var rest := RangeKeys(s[1..], from, to);
      assert forall k :: k in rest ==> KeyLess(s[0], k);
    }
  }
}
