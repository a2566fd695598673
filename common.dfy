/** Shared vocabulary of the backend model: identifiers, optional values,
    results of handlers, and request-body values as JavaScript sees them. */
module Common {

  /** Database row identifiers (SERIAL columns, never negative). */
  type UserId = nat
  type ProjectId = nat

  datatype Option<+T> = None | Some(value: T)

  /** What a handler sends back: a success payload or the error it passes to `next`. */
  datatype Result<+R, +E> = Success(value: R) | Failure(error: E)

  /** A request-body field or a column value: missing (`undefined`), a
      string, an integer, or any other JSON value, of which only its
      JavaScript truthiness matters. */
  datatype JsValue = Undefined | Str(s: string) | Num(n: int) | Other(truthy: bool)

  /** JavaScript truthiness of a body field. */
  predicate Truthy(v: JsValue)
  {
    match v
    case Undefined => false
    case Str(s) => s != ""
    case Num(n) => n != 0
    case Other(t) => t
  }

  /** `parseInt(x) || d`: a query parameter that is missing, not a number
      (None) or zero falls back to the default. */
  function OrDefault(parsed: Option<int>, default: int): (r: int)
    ensures parsed.Some? && parsed.value != 0 ==> r == parsed.value
    ensures parsed.None? || parsed.value == 0 ==> r == default
  {
    if parsed.Some? && parsed.value != 0 then parsed.value else default
  }

  /** `v || d` on a body field. */
  function OrElse(v: JsValue, d: JsValue): (r: JsValue)
    ensures Truthy(v) ==> r == v
    ensures !Truthy(v) ==> r == d
  {
    if Truthy(v) then v else d
  }

  /** A body field by name; a missing property reads as `undefined`. */
  function Field(body: map<string, JsValue>, k: string): (r: JsValue)
    ensures k in body ==> r == body[k]
    ensures k !in body ==> r == Undefined
  {
    if k in body then body[k] else Undefined
  }

  /** Euclidean division by a positive divisor brackets the dividend. */
  lemma DivBounds(a: nat, d: nat)
    requires d > 0
    ensures d * (a / d) <= a < d * (a / d) + d
  {
  }

  lemma {:induction false} MulMono(d: nat, x: int, y: int)
    requires x <= y
    ensures d * x <= d * y
  {
    if d > 0 {
      MulMono(d - 1, x, y);
      assert d * x == (d - 1) * x + x;
      assert d * y == (d - 1) * y + y;
    }
  }

  /** A factor common to both sides of a strict inequality can be cancelled. */
  lemma MulCancel(d: nat, x: int, y: int)
    ensures d * x < d * y ==> x < y
  {
    if x >= y {
      MulMono(d, y, x);
    }
  }
}
