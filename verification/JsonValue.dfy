/** JSON values and the library's equality on them. */
module JsonValue {
  import opened Wrappers

  type Int64 = x: int | -0x8000_0000_0000_0000 <= x < 0x8000_0000_0000_0000
  type UInt64 = x: int | 0 <= x < 0x1_0000_0000_0000_0000
  type UInt8 = x: int | 0 <= x < 0x100

  /** A value of `basic_json` with `std::map` objects. Floats are finite: `real` has no NaN and no infinity. */
  datatype Json =
    | Null
    | Bool(b: bool)
    | Integer(i: Int64)
    | Unsigned(u: UInt64)
    | Float(f: real)
    | Str(s: string)
    | Bin(bytes: seq<UInt8>, subtype: Option<UInt64>)
    | Arr(items: seq<Json>)
    | Obj(members: map<string, Json>)
  {
    predicate Container() {
      Arr? || Obj?
    }
  }

  predicate SameType(a: Json, b: Json) {
    match a
    case Null => b.Null?
    case Bool(_) => b.Bool?
    case Integer(_) => b.Integer?
    case Unsigned(_) => b.Unsigned?
    case Float(_) => b.Float?
    case Str(_) => b.Str?
    case Bin(_, _) => b.Bin?
    case Arr(_) => b.Arr?
    case Obj(_) => b.Obj?
  }

  /** `static_cast<int64_t>` of an unsigned 64-bit number. */
  function ToSigned(u: UInt64): Int64 {
    if u < 0x8000_0000_0000_0000 then u else u - 0x1_0000_0000_0000_0000
  }

  const TWO_TO_THE_53: nat := 0x20_0000_0000_0000

  /** The spacing of doubles at magnitude `n`. */
  function Ulp(n: nat): (u: nat)
    ensures u >= 1
  {
    if n < TWO_TO_THE_53 then 1 else 2 * Ulp(n / 2)
  }

  /** `static_cast<double>` of an integer: to nearest, ties to even. */
  function ToDouble(n: int): real {
    if n < 0 then -RoundToDouble(-n) else RoundToDouble(n)
  }

  function RoundToDouble(n: nat): real {
    var ulp := Ulp(n);
    var q, r := n / ulp, n % ulp;
    var down := 2 * r < ulp || (2 * r == ulp && q % 2 == 0);
    ((if down then q else q + 1) * ulp) as real
  }

  /** The library's `==`: numbers of different kinds compare after a conversion. */
  predicate LibEq(a: Json, b: Json)
    decreases a
  {
    match (a, b)
    case (Null, Null) => true
    case (Bool(x), Bool(y)) => x == y
    case (Integer(x), Integer(y)) => x == y
    case (Unsigned(x), Unsigned(y)) => x == y
    case (Float(x), Float(y)) => x == y
    case (Integer(x), Float(y)) => ToDouble(x) == y
    case (Float(x), Integer(y)) => x == ToDouble(y)
    case (Unsigned(x), Float(y)) => ToDouble(x) == y
    case (Float(x), Unsigned(y)) => x == ToDouble(y)
    case (Unsigned(x), Integer(y)) => ToSigned(x) == y
    case (Integer(x), Unsigned(y)) => x == ToSigned(y)
    case (Str(x), Str(y)) => x == y
    case (Bin(x, p), Bin(y, q)) => x == y && p == q
    case (Arr(x), Arr(y)) =>
      |x| == |y| && forall i | 0 <= i < |x| :: LibEq(x[i], y[i])
    case (Obj(x), Obj(y)) =>
      x.Keys == y.Keys && forall k | k in x.Keys :: LibEq(x[k], y[k])
    case _ => false
  }

  lemma {:induction false} LibEqReflexive(a: Json)
    ensures LibEq(a, a)
  {
    match a
    case Arr(x) =>
      forall i | 0 <= i < |x| ensures LibEq(x[i], x[i]) { LibEqReflexive(x[i]); }
    case Obj(x) =>
      forall k | k in x.Keys ensures LibEq(x[k], x[k]) { LibEqReflexive(x[k]); }
    case _ =>
  }
}
