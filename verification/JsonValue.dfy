/**
 JSON values as `basic_json` stores them, and the library's own `operator==`.

 Integers and unsigned numbers keep their 64-bit ranges, because comparing the
 two casts the unsigned operand to the signed type. A float is an ideal real:
 rounding and NaN are not modelled.
 */
module JsonValue {
  import opened Wrappers

  const TWO_64: int := 0x1_0000_0000_0000_0000
  const TWO_63: int := 0x8000_0000_0000_0000

  type Int64 = x: int | -TWO_63 <= x < TWO_63
  type UInt64 = x: int | 0 <= x < TWO_64
  type Byte = x: int | 0 <= x < 256

  datatype Json =
    | Null
    | Boolean(b: bool)
    | Integer(i: Int64)
    | Unsigned(u: UInt64)
    | Float(r: real)
    | String(s: string)
    | Binary(bytes: seq<Byte>)
    | Array(elems: seq<Json>)
    | Object(members: map<string, Json>)

  /** `value_t` of a value: two values of different kinds are replaced, not merged. */
  datatype Kind = KNull | KBoolean | KInteger | KUnsigned | KFloat | KString | KBinary | KArray | KObject

  function KindOf(j: Json): Kind {
    match j
    case Null => KNull
    case Boolean(_) => KBoolean
    case Integer(_) => KInteger
    case Unsigned(_) => KUnsigned
    case Float(_) => KFloat
    case String(_) => KString
    case Binary(_) => KBinary
    case Array(_) => KArray
    case Object(_) => KObject
  }

  /** `static_cast<number_integer_t>` of an unsigned number: wraps modulo 2^64. */
  function ToSigned(u: UInt64): Int64 {
    if u < TWO_63 then u else u - TWO_64
  }

  /** `operator==`. Numbers of different kinds are compared after a cast. */
  predicate Equals(a: Json, b: Json)
    decreases a
  {
    match (a, b)
    case (Array(x), Array(y)) =>
      |x| == |y| && forall k | 0 <= k < |x| :: Equals(x[k], y[k])
    case (Object(x), Object(y)) =>
      x.Keys == y.Keys && forall k | k in x.Keys :: Equals(x[k], y[k])
    case (Integer(x), Float(y)) => x as real == y
    case (Float(x), Integer(y)) => x == y as real
    case (Unsigned(x), Float(y)) => x as real == y
    case (Float(x), Unsigned(y)) => x == y as real
    case (Unsigned(x), Integer(y)) => ToSigned(x) == y
    case (Integer(x), Unsigned(y)) => x == ToSigned(y)
    case (_, _) => a == b
  }

  lemma {:induction false} EqualsReflexive(a: Json)
    ensures Equals(a, a)
  {
    match a
    case Array(x) =>
      forall k | 0 <= k < |x| ensures Equals(x[k], x[k]) {
        EqualsReflexive(x[k]);
      }
    case Object(x) =>
      forall k | k in x.Keys ensures Equals(x[k], x[k]) {
        EqualsReflexive(x[k]);
      }
    case _ =>
  }

  lemma {:induction false} EqualsSymmetric(a: Json, b: Json)
    ensures Equals(a, b) <==> Equals(b, a)
    decreases a
  {
    match (a, b)
    case (Array(x), Array(y)) =>
      forall k | 0 <= k < |x| && k < |y| ensures Equals(x[k], y[k]) <==> Equals(y[k], x[k]) {
        EqualsSymmetric(x[k], y[k]);
      }
    case (Object(x), Object(y)) =>
      forall k | k in x.Keys && k in y.Keys ensures Equals(x[k], y[k]) <==> Equals(y[k], x[k]) {
        EqualsSymmetric(x[k], y[k]);
      }
    case _ =>
  }

  predicate IsNumber(j: Json) {
    j.Integer? || j.Unsigned? || j.Float?
  }

  /**
   Values of one kind are equal when they are the same, those of two kinds only if they
   are numbers: a float when the quantities agree, two integers when they agree modulo 2^64.
   */
  lemma EqualsByKind(a: Json, b: Json, i: Int64, u: UInt64, r: real)
    ensures KindOf(a) == KindOf(b) && !a.Array? && !a.Object? ==> (Equals(a, b) <==> a == b)
    ensures KindOf(a) != KindOf(b) && Equals(a, b) ==> IsNumber(a) && IsNumber(b)
    ensures Equals(Integer(i), Unsigned(u)) <==> (u - i) % TWO_64 == 0
    ensures Equals(Integer(i), Float(r)) <==> i as real == r
    ensures Equals(Unsigned(u), Float(r)) <==> u as real == r
  {
    assert u - i == ToSigned(u) - i || u - i == ToSigned(u) - i + TWO_64;
  }

  /** `==` is not transitive: -1 equals both -1.0 and 2^64 - 1, which are not equal. */
  lemma EqualsNotTransitive()
    ensures Equals(Float(-1.0), Integer(-1)) && Equals(Integer(-1), Unsigned(TWO_64 - 1))
    ensures !Equals(Float(-1.0), Unsigned(TWO_64 - 1))
  {
  }

  /** What is found by following member names through objects. */
  function Found(j: Json, names: seq<string>): Option<Json>
    decreases |names|
  {
    if names == [] then Some(j)
    else if j.Object? && names[0] in j.members then Found(j.members[names[0]], names[1..])
    else None
  }

  /** Every array is short enough for `size_type` to count it. */
  predicate SizesFit(j: Json) {
    match j
    case Array(x) => |x| < TWO_64 && forall k | 0 <= k < |x| :: SizesFit(x[k])
    case Object(x) => forall k | k in x.Keys :: SizesFit(x[k])
    case _ => true
  }

  /** Arrays fit at every place: a value fits that holds no others, and one that does if it and they do. */
  lemma SizesFitInside(j: Json)
    ensures !j.Array? && !j.Object? ==> SizesFit(j)
    ensures j.Array? ==>
              (SizesFit(j) <==> |j.elems| < 0x1_0000_0000_0000_0000 && forall i | 0 <= i < |j.elems| :: SizesFit(j.elems[i]))
    ensures j.Object? ==> (SizesFit(j) <==> forall name | name in j.members :: SizesFit(j.members[name]))
  {
  }

  /** Two values are of one kind exactly when they were made by the same constructor. */
  lemma SameKind(a: Json, b: Json)
    ensures KindOf(a) == KindOf(b) <==>
              && (a.Null? <==> b.Null?) && (a.Boolean? <==> b.Boolean?) && (a.Integer? <==> b.Integer?)
              && (a.Unsigned? <==> b.Unsigned?) && (a.Float? <==> b.Float?) && (a.String? <==> b.String?)
              && (a.Binary? <==> b.Binary?) && (a.Array? <==> b.Array?) && (a.Object? <==> b.Object?)
  {
  }
}
