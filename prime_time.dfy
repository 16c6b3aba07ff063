/** The prime-time service's request handling
    (rust/protohackers/src/prime_time.rs): trial division and the
    request-to-response mapping. */
module PrimeTime {
  import opened Common

  /** The reference definition: at least 2 and no divisor strictly between
      1 and itself. Rust's `%` agrees with Dafny's for the positive operands
      used here. */
  predicate Prime(x: int) {
    x >= 2 && forall d :: 2 <= d < x ==> x % d != 0
  }

  /** A proper divisor is at most half of the number. */
  lemma SmallFactor(x: int, d: int)
    requires 2 <= d < x && x % d == 0
    ensures d <= x / 2
  {
    var k := x / d;
    assert x == d * k;
  }

  /** `is_prime`: trial division by 2, 3, ... up to `x / 2 + 1`. */
  method IsPrime(x: i64) returns (prime: bool)
    ensures prime <==> Prime(x)
  {
    if x < 2 {
      return false;
    }
    if x == 2 {
      return true;
    }
    var div := 2;
    var cutoff := x / 2 + 2;
    while div < cutoff
      invariant 2 <= div <= cutoff
      invariant forall d :: 2 <= d < div ==> x % d != 0
    {
      if x % div == 0 {
        assert div < x;
        return false;
      }
      div := div + 1;
    }
    forall d | 2 <= d < x
      ensures x % d != 0
    {
      if x % d == 0 {
        SmallFactor(x, d);
      }
    }
    return true;
  }

  /** `is_prime_works`, first half: -100, 0, 1, 4 and 21 are not prime... */
  lemma IsPrimeTableComposite()
    ensures !Prime(-100) && !Prime(0) && !Prime(1) && !Prime(4) && !Prime(21)
  {
    assert 4 % 2 == 0;
    assert 21 % 3 == 0;
  }

  /** ...and 2, 3 and 53 are. */
  lemma IsPrimeTablePrime()
    ensures Prime(2) && Prime(3) && Prime(53)
  {
  }

  /** The `number` field as serde_json holds it: a non-negative integer, a
      negative integer, or a floating-point number (whose value is not modelled). */
  datatype JsonNumber =
    | PosInt(u: u64)
    | NegInt(i: i64)
    | Float

  /** `Number::as_i64`: the value when it is an integer that fits in an i64. */
  function AsI64(n: JsonNumber): (r: Option<i64>)
    ensures r.Some? <==> n.NegInt? || (n.PosInt? && n.u < 0x8000_0000_0000_0000)
    ensures r.Some? && n.PosInt? ==> r.value == n.u
    ensures r.Some? && n.NegInt? ==> r.value == n.i
  {
    match n
    case PosInt(u) => if u < 0x8000_0000_0000_0000 then Some(u) else None
    case NegInt(i) => Some(i)
    case Float => None
  }

  datatype Request = Request(methodName: string, number: JsonNumber)

  datatype Response = Response(methodName: string, prime: bool)

  /** `process`: no response for a method other than "isPrime"; otherwise
      an "isPrime" response, whose `prime` is false unless the number is an
      i64 that is prime. */
  method Process(req: Request) returns (res: Option<Response>)
    ensures res.None? <==> req.methodName != "isPrime"
    ensures res.Some? ==> res.value.methodName == "isPrime"
    ensures res.Some? ==> (res.value.prime <==> AsI64(req.number).Some? && Prime(AsI64(req.number).value))
  {
    if req.methodName != "isPrime" {
      return None;
    }
    var prime := false;
    var x := AsI64(req.number);
    if x.Some? {
      prime := IsPrime(x.value);
    }
    return Some(Response("isPrime", prime));
  }

  /** A floating-point number is never reported prime, whatever its value. */
  lemma FloatNotPrime(n: JsonNumber)
    requires n.Float?
    ensures AsI64(n).None?
  {
  }
}
