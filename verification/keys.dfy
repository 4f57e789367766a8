/** Keys of a blockfile: the closed family of key types, erased into one
    wrapper, and the total order each key type carries. */
module Keys {

  /** Unsigned 32-bit integers. */
  newtype u32 = x: int | 0 <= x < 0x1_0000_0000

  /** A key of any supported type, with the tag saying which type it is. */
  datatype KeyWrapper = Str(s: string) | Bool(b: bool) | U32(n: u32)

  /** The concrete key type a statically typed reader works with. */
  datatype KeyKind = StrKind | BoolKind | U32Kind

  function KindOf(k: KeyWrapper): KeyKind
  {
    match k
    case Str(_) => StrKind
    case Bool(_) => BoolKind
    case U32(_) => U32Kind
  }

  /** Lexicographic order on text, character by character. */
  predicate StrLess(a: string, b: string)
    decreases |a|
  {
    if |a| == 0 then |b| > 0
    else if |b| == 0 then false
    else if a[0] != b[0] then a[0] < b[0]
    else StrLess(a[1..], b[1..])
  }

  /** The strict order on wrapped keys: lexicographic for text, false before
      true for booleans, numeric for integers. Wrappers of different key
      types are not comparable. */
  predicate Less(a: KeyWrapper, b: KeyWrapper)
  {
    match (a, b)
    case (Str(x), Str(y)) => StrLess(x, y)
    case (Bool(x), Bool(y)) => !x && y
    case (U32(x), U32(y)) => x < y
    case _ => false
  }

  lemma {:induction false} StrLessIrreflexive(a: string)
    ensures !StrLess(a, a)
  {
    if |a| > 0 {
      StrLessIrreflexive(a[1..]);
    }
  }

  lemma {:induction false} StrLessTransitive(a: string, b: string, c: string)
    requires StrLess(a, b) && StrLess(b, c)
    ensures StrLess(a, c)
    decreases |a|
  {
    if |a| > 0 && |b| > 0 && |c| > 0 && a[0] == b[0] && b[0] == c[0] {
      StrLessTransitive(a[1..], b[1..], c[1..]);
    }
  }

  lemma {:induction false} StrLessConnected(a: string, b: string)
    requires a != b
    ensures StrLess(a, b) || StrLess(b, a)
    decreases |a|
  {
    if |a| > 0 && |b| > 0 && a[0] == b[0] {
      assert a == [a[0]] + a[1..] && b == [b[0]] + b[1..];
      StrLessConnected(a[1..], b[1..]);
    }
  }

  /** Two comparable keys stand in exactly one of the three relations, so
      every wrapped key type is strictly totally ordered. */
  lemma KeyTrichotomy(a: KeyWrapper, b: KeyWrapper)
    requires KindOf(a) == KindOf(b)
    ensures Less(a, b) || a == b || Less(b, a)
    ensures !(Less(a, b) && Less(b, a))
    ensures !Less(a, a)
  {
    match (a, b)
    case (Str(x), Str(y)) =>
      StrLessIrreflexive(x);
      if x != y {
        StrLessConnected(x, y);
      }
      if StrLess(x, y) && StrLess(y, x) {
        StrLessTransitive(x, y, x);
        StrLessIrreflexive(x);
      }
    case (Bool(_), Bool(_)) =>
    case (U32(_), U32(_)) =>
  }

  /** The order on wrapped keys is transitive. */
  lemma KeyTransitive(a: KeyWrapper, b: KeyWrapper, c: KeyWrapper)
    requires Less(a, b) && Less(b, c)
    ensures Less(a, c)
  {
    match (a, b, c)
    case (Str(x), Str(y), Str(z)) =>
      StrLessTransitive(x, y, z);
    case (Bool(_), Bool(_), Bool(_)) =>
    case (U32(_), U32(_), U32(_)) =>
  }
}
