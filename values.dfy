/** Scalar values stored in table cells and the domains (Java classes) that type them. */
module Values {

  newtype Int64 = x: int | -0x8000_0000_0000_0000 <= x < 0x8000_0000_0000_0000
  newtype Int32 = x: int | -0x8000_0000 <= x < 0x8000_0000
  newtype Int16 = x: int | -0x8000 <= x < 0x8000
  newtype Int8 = x: int | -0x80 <= x < 0x80
  /** The IEEE 754 bit pattern of a `double` / `float`, read as an unsigned number. */
  newtype Bits64 = x: int | 0 <= x < 0x1_0000_0000_0000_0000
  newtype Bits32 = x: int | 0 <= x < 0x1_0000_0000
  /** A Java `char`: one UTF-16 code unit (a lone surrogate included). */
  newtype Char16 = x: int | 0 <= x < 0x1_0000
  /** A Java `String`: its sequence of UTF-16 code units. */
  type JString = seq<Char16>

  /** The declared type of a column: one of the java.lang classes a domain may name. */
  datatype Domain = Long | Integer | Short | Byte | Double | Float | Character | String

  /** A boxed scalar. Floating-point values are kept as bit patterns: the table only
      compares them, for equality and in `compareTo`'s order. */
  datatype Value =
    | LongVal(l: Int64)
    | IntegerVal(i: Int32)
    | ShortVal(s: Int16)
    | ByteVal(b: Int8)
    | DoubleVal(d: Bits64)
    | FloatVal(f: Bits32)
    | CharacterVal(c: Char16)
    | StringVal(str: JString)

  /** A tuple: one value per attribute. */
  type Row = seq<Value>

  /** The runtime class of a value (`getClass()`). */
  function DomainOf(v: Value): Domain {
    match v
    case LongVal(_) => Long
    case IntegerVal(_) => Integer
    case ShortVal(_) => Short
    case ByteVal(_) => Byte
    case DoubleVal(_) => Double
    case FloatVal(_) => Float
    case CharacterVal(_) => Character
    case StringVal(_) => String
  }

  /** Position of a domain in the cross-class order used by keys. */
  function Rank(d: Domain): nat {
    match d
    case Long => 0
    case Integer => 1
    case Short => 2
    case Byte => 3
    case Double => 4
    case Float => 5
    case Character => 6
    case String => 7
  }

  /** `String.compareTo(...) < 0`: lexicographic on UTF-16 code units, a proper prefix first. */
  predicate StringLess(a: JString, b: JString) {
    if a == [] then b != []
    else if b == [] then false
    else a[0] < b[0] || (a[0] == b[0] && StringLess(a[1..], b[1..]))
  }

  /** A `double` bit pattern is a NaN when its exponent bits are all set and its
      fraction is not zero, i.e. its magnitude lies above that of infinity. */
  predicate IsNaN64(x: Bits64) {
    x as int % 0x8000_0000_0000_0000 > 0x7FF0_0000_0000_0000
  }

  predicate IsNaN32(x: Bits32) {
    x as int % 0x8000_0000 > 0x7F80_0000
  }

  /** A number whose `<` is `Double.compare`'s order: negatives (-0.0 included) below
      +0.0 and the positives, the larger magnitude lower among negatives, NaN above
      everything (NaNs among themselves by bit pattern). */
  function DoubleRank(x: Bits64): int {
    if IsNaN64(x) then 0x1_0000_0000_0000_0000 + x as int
    else if x as int < 0x8000_0000_0000_0000 then x as int
    else 0x8000_0000_0000_0000 - x as int - 1
  }

  /** `Float.compare`'s order, as `DoubleRank` for 32-bit patterns. */
  function FloatRank(x: Bits32): int {
    if IsNaN32(x) then 0x1_0000_0000 + x as int
    else if x as int < 0x8000_0000 then x as int
    else 0x8000_0000 - x as int - 1
  }

  /** Natural order within one class; values of different classes are ordered by class. */
  predicate ValueLess(a: Value, b: Value) {
    if DomainOf(a) != DomainOf(b) then Rank(DomainOf(a)) < Rank(DomainOf(b))
    else SameClassLess(a, b)
  }

  /** `compareTo(...) < 0` for two values of the same class. */
  predicate SameClassLess(a: Value, b: Value)
    requires DomainOf(a) == DomainOf(b)
  {
    match a
    case LongVal(x) => x < b.l
    case IntegerVal(x) => x < b.i
    case ShortVal(x) => x < b.s
    case ByteVal(x) => x < b.b
    case DoubleVal(x) => DoubleRank(x) < DoubleRank(b.d)
    case FloatVal(x) => FloatRank(x) < FloatRank(b.f)
    case CharacterVal(x) => x < b.c
    case StringVal(x) => StringLess(x, b.str)
  }

  /** Distinct bit patterns have distinct ranks, so the floating-point order is total. */
  lemma DoubleRankInjective(x: Bits64, y: Bits64)
    requires DoubleRank(x) == DoubleRank(y)
    ensures x == y
  {
  }

  lemma FloatRankInjective(x: Bits32, y: Bits32)
    requires FloatRank(x) == FloatRank(y)
    ensures x == y
  {
  }

  /** Strings compare by UTF-16 code unit: a supplementary character (a surrogate
      pair starting 0xD83D) sorts below the single unit 0xFFFF. */
  lemma SurrogatePairBelowMaxUnit()
    ensures StringLess([0xD83D, 0xDE00], [0xFFFF])
  {
  }

  /** Doubles compare numerically: -1.0 sorts below 1.0 although its bit pattern is larger. */
  lemma MinusOneBelowOne()
    ensures ValueLess(DoubleVal(0xBFF0_0000_0000_0000), DoubleVal(0x3FF0_0000_0000_0000))
    ensures ValueLess(DoubleVal(0x8000_0000_0000_0000), DoubleVal(0))
  {
  }

  lemma {:induction false} StringLessIrreflexive(a: JString)
    ensures !StringLess(a, a)
  {
    if a != [] {
      StringLessIrreflexive(a[1..]);
    }
  }

  lemma {:induction false} StringLessTransitive(a: JString, b: JString, c: JString)
    requires StringLess(a, b) && StringLess(b, c)
    ensures StringLess(a, c)
  {
    if a != [] && a[0] == b[0] && b[0] == c[0] {
      StringLessTransitive(a[1..], b[1..], c[1..]);
    }
  }

  lemma {:induction false} StringLessTotal(a: JString, b: JString)
    ensures a == b || StringLess(a, b) || StringLess(b, a)
  {
    if a != [] && b != [] && a[0] == b[0] {
      StringLessTotal(a[1..], b[1..]);
      if a[1..] == b[1..] {
        assert a == [a[0]] + a[1..] && b == [b[0]] + b[1..];
      }
    }
  }

  lemma ValueLessIrreflexive(a: Value)
    ensures !ValueLess(a, a)
  {
    if a.StringVal? {
      StringLessIrreflexive(a.str);
    }
  }

  lemma RankInjective(d: Domain, e: Domain)
    requires Rank(d) == Rank(e)
    ensures d == e
  {
  }

  lemma ValueLessTransitive(a: Value, b: Value, c: Value)
    requires ValueLess(a, b) && ValueLess(b, c)
    ensures ValueLess(a, c)
  {
    if DomainOf(a) == DomainOf(b) && DomainOf(b) == DomainOf(c) {
      match a
      case StringVal(x) => StringLessTransitive(x, b.str, c.str);
      case _ =>
    } else if DomainOf(a) == DomainOf(c) {
      RankInjective(DomainOf(a), DomainOf(c));
    }
  }

  lemma ValueLessTotal(a: Value, b: Value)
    ensures a == b || ValueLess(a, b) || ValueLess(b, a)
  {
    if DomainOf(a) == DomainOf(b) {
      match a
      case LongVal(x) => assert b == LongVal(b.l);
      case IntegerVal(x) => assert b == IntegerVal(b.i);
      case ShortVal(x) => assert b == ShortVal(b.s);
      case ByteVal(x) => assert b == ByteVal(b.b);
      case DoubleVal(x) =>
        assert b == DoubleVal(b.d);
        if DoubleRank(x) == DoubleRank(b.d) {
          DoubleRankInjective(x, b.d);
        }
      case FloatVal(x) =>
        assert b == FloatVal(b.f);
        if FloatRank(x) == FloatRank(b.f) {
          FloatRankInjective(x, b.f);
        }
      case CharacterVal(x) => assert b == CharacterVal(b.c);
      case StringVal(x) => StringLessTotal(x, b.str);
    } else if Rank(DomainOf(a)) == Rank(DomainOf(b)) {
      RankInjective(DomainOf(a), DomainOf(b));
    }
  }
}
