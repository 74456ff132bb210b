/** The numeric coercions the handlers apply to request fields (server.js:84, 131, 179, 225). */
module JsNumbers {
  import opened Wrappers

  /** The result of `Number(x)` on a request field. Fractions are not modelled; every input that
      is not a number (`undefined`, `"abc"`, an object) becomes `NaN`. */
  datatype JsNumber = Int(n: int) | NaN | PosInf | NegInf

  const TwoTo31: int := 0x8000_0000
  const TwoTo32: int := 0x1_0000_0000

  /** `Number.isFinite`. */
  predicate IsFinite(x: JsNumber)
  {
    x.Int?
  }

  /** `x | 0`: ECMAScript's ToInt32, which maps `NaN` and the infinities to 0 and wraps every
      integer into the signed 32-bit range. */
  function ToInt32(x: JsNumber): (r: int)
    ensures -TwoTo31 <= r < TwoTo31
    ensures x.Int? ==> (x.n - r) % TwoTo32 == 0
    ensures x.Int? && -TwoTo31 <= x.n < TwoTo31 ==> r == x.n
    ensures !x.Int? ==> r == 0
  {
    match x
    case Int(n) =>
      var m := n % TwoTo32;
      if m >= TwoTo31 then m - TwoTo32 else m
    case _ => 0
  }

  /** The coercion lets an out-of-range number through as an in-range score:
      2^32 + 5 becomes 5 and 2^32 - 5 becomes -5. */
  lemma ToInt32Wraps()
    ensures ToInt32(Int(TwoTo32 + 5)) == 5
    ensures ToInt32(Int(TwoTo32 - 5)) == -5
    ensures ToInt32(NaN) == 0
  {
  }

  /** The number of rows kept by `rows.slice(0, Math.max(1, Math.min(100, Number(q || 10))))`
      (server.js:131, 225): an absent or empty parameter means 10, a number is clamped to
      [1, 100], and `NaN` survives the clamp, so `slice(0, NaN)` keeps no row at all. */
  function SliceCount(q: Option<JsNumber>): (n: nat)
    ensures q != Some(NaN) ==> 1 <= n <= 100
    ensures q == Some(NaN) ==> n == 0
    ensures q.None? ==> n == 10
    ensures q.Some? && q.value.Int? && 1 <= q.value.n <= 100 ==> n == q.value.n
    ensures q.Some? && q.value.Int? && q.value.n < 1 ==> n == 1
    ensures q.Some? && q.value.Int? && q.value.n > 100 ==> n == 100
    ensures q == Some(PosInf) ==> n == 100
    ensures q == Some(NegInf) ==> n == 1
  {
    match q
    case None => 10
    case Some(Int(v)) => if v < 1 then 1 else if v > 100 then 100 else v
    case Some(PosInf) => 100
    case Some(NegInf) => 1
    case Some(NaN) => 0
  }
}
