/**
 * AddSalary: the combination that adds up salaries, with 0 as its neutral
 * element, and the aggregation its Aggregation contract describes. The
 * values are Java Integers, so addition wraps around at 32 bits.
 */
module Salaries {
  import opened JavaInts

  /** A value of a Java int. */
  type Int32 = x: int | -IntModulus / 2 <= x < IntModulus / 2

  /** The one property of an employee the combination reads. */
  datatype Employee = Employee(salary: Int32)

  /** neutral: zero. */
  function Neutral(): (r: Int32)
    ensures r == 0
  {
    0
  }

  /** combine: Java int addition, the exact sum wrapped to 32 bits. */
  function Combine(x: Int32, y: Int32): (r: Int32)
    ensures (r - (x + y)) % IntModulus == 0
    ensures -IntModulus / 2 <= x + y < IntModulus / 2 ==> r == x + y
  {
    Wrap32(x + y)
  }

  /** The neutral element is an identity of combine on both sides. */
  lemma NeutralIsIdentity(y: Int32)
    ensures Combine(Neutral(), y) == y && Combine(y, Neutral()) == y
  {
  }

  /** Combination in either order gives the same value. */
  lemma CombineCommutative(x: Int32, y: Int32)
    ensures Combine(x, y) == Combine(y, x)
  {
    assert x + y == y + x;
  }

  /** Combination in any grouping gives the same value. */
  lemma CombineAssociative(x: Int32, y: Int32, z: Int32)
    ensures Combine(Combine(x, y), z) == Combine(x, Combine(y, z))
  {
    calc {
      Combine(Combine(x, y), z);
      Wrap32(Wrap32(x + y) + z);
      { Wrap32Absorbs(x + y, z); }
      Wrap32((y + z) + x);
      { Wrap32Absorbs(y + z, x); }
      Wrap32(Wrap32(y + z) + x);
      Combine(x, Combine(y, z));
    }
  }

  /** get: the employee's salary. */
  function Get(e: Employee): (r: Int32)
    ensures r == e.salary
  {
    e.salary
  }

  /** The exact sum of the salaries of a list of employees. */
  function SalarySum(es: seq<Employee>): int
  {
    if es == [] then 0 else SalarySum(es[..|es| - 1]) + es[|es| - 1].salary
  }

  /**
   * The aggregate the Aggregation contract describes for AddSalary: the
   * neutral element combined with get of each employee in turn.
   */
  function Aggregate(es: seq<Employee>): (r: Int32)
    ensures (r - SalarySum(es)) % IntModulus == 0
  {
    if es == [] then Neutral()
    else
      var init := es[..|es| - 1];
      var a := Aggregate(init);
      var s := Get(es[|es| - 1]);
      var r := Combine(a, s);
      MultiplesAdd(r - (a + s), a - SalarySum(init));
      r
  }

  /**
   * Aggregating with AddSalary gives the sum of the salaries, wrapped to 32
   * bits; so exactly the sum whenever it fits in an int.
   */
  lemma {:induction false} AggregateIsSalarySum(es: seq<Employee>)
    ensures Aggregate(es) == Wrap32(SalarySum(es))
    ensures -IntModulus / 2 <= SalarySum(es) < IntModulus / 2 ==> Aggregate(es) == SalarySum(es)
  {
    Wrap32Unique(SalarySum(es), Aggregate(es));
  }

  /** Aggregating a concatenation combines the aggregates of the parts. */
  lemma {:induction false} AggregateAppend(xs: seq<Employee>, ys: seq<Employee>)
    ensures Aggregate(xs + ys) == Combine(Aggregate(xs), Aggregate(ys))
    decreases |ys|
  {
    if ys == [] {
      assert xs + ys == xs;
    } else {
      var init := ys[..|ys| - 1];
      assert (xs + ys)[..|xs + ys| - 1] == xs + init;
      AggregateAppend(xs, init);
      CombineAssociative(Aggregate(xs), Aggregate(init), Get(ys[|ys| - 1]));
    }
  }
}
