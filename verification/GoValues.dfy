/** The values a written row carries, and what Go's conversions make of them. */
module GoValues {
  import opened Wrappers

  // A float; the sign of zero is not told apart.
  datatype GoFloat = Finite(value: real) | NaN | Infinite(negative: bool)

  // Number is a literal as written (json.Number), Raw and Bytes are JSON texts in their two encodings.
  datatype GoValue =
    | Nil
    | Text(text: string)
    | Number(literal: string)
    | Truth(flag: bool)
    | Int8(n: int)
    | Int16(n: int)
    | Int32(n: int)
    | Int64(n: int)
    | Float32(x: GoFloat)
    | Float64(x: GoFloat)
    | Raw(json: string)
    | Bytes(json: string)
    | Vector(xs: seq<GoFloat>)

  // Row of the write path.
  type WriteRow = map<string, GoValue>

  const TWO_53 := 0x20_0000_0000_0000

  /** strconv and the float conversions: a literal as a 64-bit integer and as a double, an integer's nearest
      double, a double's nearest single, whether a text is one JSON value. */
  datatype Go = Go(int64: string -> Option<int>, float64: string -> Option<real>, nearest: int -> real,
                   narrow: real -> real, isJson: string -> bool)
  {
    /** Integers up to 2^53 convert exactly and no other to one below that, a literal read both ways is one
        number, rounding to single precision is idempotent and stays in its range. */
    ghost predicate Faithful() {
      && (forall n: int :: -TWO_53 <= n <= TWO_53 ==> nearest(n) == n as real)
      && (forall n: int :: n > TWO_53 ==> nearest(n) >= TWO_53 as real)
      && (forall n: int :: n < -TWO_53 ==> nearest(n) <= -(TWO_53 as real))
      && (forall s :: int64(s).Some? ==> float64(s) == Some(nearest(int64(s).value)))
      && (forall x: real :: narrow(narrow(x)) == narrow(x))
      && (forall x: real :: -MAX_FLOAT32 <= x <= MAX_FLOAT32 ==> -MAX_FLOAT32 <= narrow(x) <= MAX_FLOAT32)
    }
  }

  const MAX_FLOAT32: real := 340282346638528859811704183484516925440.0

  predicate IsIntegral(x: real) {
    x == x.Floor as real
  }

  // math.Trunc(x) == x and math.Abs(x) < 2^53
  predicate IsSmallInteger(x: real) {
    IsIntegral(x) && -(TWO_53 as real) < x < TWO_53 as real
  }

  // toInt64
  function ToInt64(v: GoValue, go: Go): Option<int> {
    match v
    case Number(s) =>
      if go.int64(s).Some? then go.int64(s)
      else (match go.float64(s) case Some(x) => if IsSmallInteger(x) then Some(x.Floor) else None case None => None)
    case Int64(n) => Some(n)
    case Int32(n) => Some(n)
    case Float64(Finite(x)) => if IsSmallInteger(x) then Some(x.Floor) else None
    case _ => None
  }

  // toFloat64
  function ToFloat64(v: GoValue, go: Go): Option<GoFloat> {
    match v
    case Number(s) => (match go.float64(s) case Some(x) => Some(Finite(x)) case None => None)
    case Float64(x) => Some(x)
    case Float32(x) => Some(x)
    case Int64(n) => Some(Finite(go.nearest(n)))
    case _ => None
  }

  // The number of bytes of a string.
  function ByteLength(s: string): nat {
    if s == "" then 0 else CharBytes(s[0]) + ByteLength(s[1..])
  }

  function CharBytes(c: char): nat {
    if c < '\U{0080}' then 1 else if c < '\U{0800}' then 2 else if c < '\U{10000}' then 3 else 4
  }

  // How many characters of a string have a code point from this one on.
  function CountFrom(s: string, code: nat): nat {
    if s == "" then 0 else (if s[0] as nat >= code then 1 else 0) + CountFrom(s[1..], code)
  }

  /** UTF-8 spends one byte on every character, and one more from each of these code points on. */
  function Utf8Bytes(s: string): nat {
    |s| + CountFrom(s, 0x80) + CountFrom(s, 0x800) + CountFrom(s, 0x1_0000)
  }

  lemma {:induction false} ByteLengthIsUtf8(s: string)
    ensures ByteLength(s) == Utf8Bytes(s)
  {
    if s != "" {
      ByteLengthIsUtf8(s[1..]);
    }
  }
}
