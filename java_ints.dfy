/**
 * Java's fixed-width integer arithmetic: int and long addition wrap around
 * in two's complement, and integer division truncates toward zero.
 */
module JavaInts {
  import opened BookStoreTypes

  const IntModulus := 0x1_0000_0000
  const LongModulus := 0x1_0000_0000_0000_0000

  /** The result of Java's int arithmetic for the exact value x. */
  function Wrap32(x: int): (r: int)
    ensures -IntModulus / 2 <= r < IntModulus / 2
    ensures (r - x) % IntModulus == 0
    ensures -IntModulus / 2 <= x < IntModulus / 2 ==> r == x
  {
    var q := (x + IntModulus / 2) / IntModulus;
    var r := (x + IntModulus / 2) % IntModulus - IntModulus / 2;
    assert r - x == -q * IntModulus;
    r
  }

  /** The result of Java's long arithmetic for the exact value x. */
  function Wrap64(x: int): (r: int)
    ensures -LongModulus / 2 <= r < LongModulus / 2
    ensures (r - x) % LongModulus == 0
    ensures -LongModulus / 2 <= x < LongModulus / 2 ==> r == x
  {
    var q := (x + LongModulus / 2) / LongModulus;
    var r := (x + LongModulus / 2) % LongModulus - LongModulus / 2;
    assert r - x == -q * LongModulus;
    r
  }

  /**
   * Two's complement has one representative per residue: an int-range
   * value congruent to x modulo 2^32 is Wrap32(x).
   */
  lemma Wrap32Unique(x: int, v: int)
    requires -IntModulus / 2 <= v < IntModulus / 2
    requires (v - x) % IntModulus == 0
    ensures v == Wrap32(x)
  {
    var w := Wrap32(x);
    var a := (v - x) / IntModulus;
    var b := (w - x) / IntModulus;
    assert v - x == a * IntModulus;
    assert w - x == b * IntModulus;
    assert v - w == (a - b) * IntModulus;
  }

  /** A sum of multiples of 2^32 is one. */
  lemma MultiplesAdd(a: int, b: int)
    requires a % IntModulus == 0 && b % IntModulus == 0
    ensures (a + b) % IntModulus == 0
  {
    var p, q := a / IntModulus, b / IntModulus;
    assert a + b == (p + q) * IntModulus;
  }

  /**
   * Wrapping after every addition gives what wrapping once at the end
   * gives: a running total kept in a Java int is the exact total, wrapped.
   */
  lemma Wrap32Absorbs(x: int, y: int)
    ensures Wrap32(Wrap32(x) + y) == Wrap32(x + y)
  {
    var d := (x + IntModulus / 2) / IntModulus;
    assert Wrap32(x) == x - d * IntModulus;
    assert Wrap32(x) + y + IntModulus / 2 == (x + y + IntModulus / 2) - d * IntModulus;
  }

  /** The same for a running total kept in a Java long. */
  lemma Wrap64Absorbs(x: int, y: int)
    ensures Wrap64(Wrap64(x) + y) == Wrap64(x + y)
  {
    var d := (x + LongModulus / 2) / LongModulus;
    assert Wrap64(x) == x - d * LongModulus;
    assert Wrap64(x) + y + LongModulus / 2 == (x + y + LongModulus / 2) - d * LongModulus;
  }

  function Abs(x: int): nat
  {
    if x < 0 then -x else x
  }

  /** Euclidean division of naturals: the quotient times the divisor falls short of the dividend by less than the divisor. */
  lemma DivisionBounds(x: nat, y: nat)
    requires y > 0
    ensures (x / y) * y <= x < (x / y) * y + y
    ensures x / y >= 0 && (x / y > 0 ==> x >= y)
  {
  }

  /**
   * Java's integer division: a / b truncated toward zero, and an
   * ArithmeticException when b is zero. The quotient times b has the sign
   * of a and falls short of a by less than one |b|.
   */
  function Quotient(a: int, b: int): (r: Result<int>)
    ensures r.Err? <==> b == 0
    ensures r.Err? ==> r.error == DivisionByZero
    ensures r.Ok? ==> Abs(r.value) * Abs(b) <= Abs(a) < Abs(r.value) * Abs(b) + Abs(b)
    ensures r.Ok? && r.value != 0 ==> (r.value > 0 <==> (a > 0) == (b > 0))
  {
    if b == 0 then Err(DivisionByZero)
    else
      var q := Abs(a) / Abs(b);
      DivisionBounds(Abs(a), Abs(b));
      var v := if (a < 0) == (b < 0) then q else -q;
      assert Abs(v) == q;
      Ok(v)
  }
}
