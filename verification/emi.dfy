/** The equal monthly installment of a loan, `loan_emi`, and what makes it
    the right installment: the smallest whole amount that pays the loan
    off over its duration. Arithmetic is exact over the reals. */
module Emi {
  import opened Results

  /** `x ** n` for a natural exponent. */
  function Pow(x: real, n: nat): real {
    if n == 0 then 1.0 else x * Pow(x, n - 1)
  }

  /** Python's `x ** n` for a float base and a whole exponent: `None` where
      Python raises `ZeroDivisionError`, zero to a negative power; the
      reciprocal of `x ** -n` for any other negative power. */
  function IntPow(x: real, n: int): (r: Option<real>)
    ensures r.None? <==> x == 0.0 && n < 0
    ensures n >= 0 ==> r == Some(Pow(x, n))
    ensures n < 0 && x != 0.0 ==> r.Some? && r.value * Pow(x, -n) == 1.0
  {
    if n >= 0 then Some(Pow(x, n))
    else if x == 0.0 then None
    else
      PowNonZero(x, -n);
      Some(1.0 / Pow(x, -n))
  }

  /** `math.ceil(x)`: the least integer not below `x`. */
  function Ceil(x: real): (c: int)
    ensures x <= c as real
    ensures (c - 1) as real < x
  {
    if x.Floor as real == x then x.Floor else x.Floor + 1
  }

  /** An integer not below `x` is not below its ceiling. */
  lemma CeilLeast(x: real, c: int)
    requires x <= c as real
    ensures Ceil(x) <= c
  {
  }

  /** `loan_emi(amount, duration, rate, down_payment)`: the installment
      for the loan left after the down payment. */
  function LoanEmi(amount: real, duration: int, rate: real, downPayment: real): (r: Result<int>)
    ensures r.Err? <==> duration == 0
    ensures r.Err? ==> r.error == DivisionByZero
  {
    Installment(amount - downPayment, duration, rate)
  }

  /** The annuity formula for a loan, a monthly rate and the growth
      factor `p = (1+rate)^n` over the whole duration. */
  function Annuity(loan: real, rate: real, p: real): real
    requires p != 1.0
  {
    loan * rate * p / (p - 1.0)
  }

  /** The body of `loan_emi` after the subtraction. The annuity formula
      `loan * rate * (1+rate)^n / ((1+rate)^n - 1)` is tried first; where
      it divides by zero (`(1+rate)^n == 1`, or zero to a negative power)
      the loan is split evenly, `loan / n`, which itself fails for `n == 0`.
      Either way the result is rounded up to a whole amount. */
  function Installment(loan: real, duration: int, rate: real): (r: Result<int>)
    ensures r.Err? <==> duration == 0
    ensures r.Err? ==> r.error == DivisionByZero
  {
    var p := IntPow(1.0 + rate, duration);
    if p.Some? && p.value != 1.0 then
      Ok(Ceil(Annuity(loan, rate, p.value)))
    else if duration == 0 then
      Err(DivisionByZero)
    else
      Ok(Ceil(loan / duration as real))
  }

  /** With no interest the annuity formula divides by zero and the loan is
      split evenly over the months. */
  lemma ZeroRate(amount: real, duration: int, downPayment: real)
    requires duration != 0
    ensures LoanEmi(amount, duration, 0.0, downPayment) == Ok(Ceil((amount - downPayment) / duration as real))
  {
    OnePow(duration);
  }

  lemma OnePow(n: int)
    ensures IntPow(1.0, n) == Some(1.0)
  {
    if n >= 0 {
      OnePowNat(n);
    } else {
      OnePowNat(-n);
    }
  }

  lemma {:induction false} OnePowNat(n: nat)
    ensures Pow(1.0, n) == 1.0
  {
    if n > 0 {
      OnePowNat(n - 1);
    }
  }

  /** What is still owed after `n` months on a loan `loan` whose balance
      grows by the factor `q = 1 + rate` each month before an installment
      `e` is paid. */
  function Balance(loan: real, q: real, e: real, n: nat): real {
    if n == 0 then loan else Balance(loan, q, e, n - 1) * q - e
  }

  /** An installment `e` clears the loan within `n` months. */
  predicate Repays(loan: real, rate: real, e: int, n: nat) {
    Balance(loan, 1.0 + rate, e as real, n) <= 0.0
  }

  /** `1 + q + ... + q^(n-1)`: what one unit paid in each month is worth
      at the end. */
  function GeomSum(q: real, n: nat): real {
    if n == 0 then 0.0 else GeomSum(q, n - 1) * q + 1.0
  }

  lemma {:induction false} BalanceClosed(loan: real, q: real, e: real, n: nat)
    ensures Balance(loan, q, e, n) == loan * Pow(q, n) - e * GeomSum(q, n)
  {
    if n > 0 {
      BalanceClosed(loan, q, e, n - 1);
      BalanceStep(loan, Pow(q, n - 1), GeomSum(q, n - 1), q, e);
    }
  }

  lemma BalanceStep(loan: real, p: real, s: real, q: real, e: real)
    ensures (loan * p - e * s) * q - e == loan * (q * p) - e * (s * q + 1.0)
  {
  }

  lemma {:induction false} GeomSumClosed(q: real, n: nat)
    ensures GeomSum(q, n) * (q - 1.0) == Pow(q, n) - 1.0
  {
    if n > 0 {
      GeomSumClosed(q, n - 1);
      var p := Pow(q, n - 1);
      var s := GeomSum(q, n - 1);
      assert (s * q + 1.0) * (q - 1.0) == s * (q - 1.0) * q + q - 1.0;
    }
  }

  lemma {:induction false} GeomSumPositive(q: real, n: nat)
    requires q > 0.0 && n >= 1
    ensures GeomSum(q, n) >= 1.0
  {
    if n > 1 {
      GeomSumPositive(q, n - 1);
      var s := GeomSum(q, n - 1);
      assert s * q > 0.0;
    }
  }

  lemma {:induction false} GeomSumOne(n: nat)
    ensures GeomSum(1.0, n) == n as real
  {
    if n > 0 {
      GeomSumOne(n - 1);
    }
  }

  lemma {:induction false} PowNonZero(x: real, n: nat)
    requires x != 0.0
    ensures Pow(x, n) != 0.0
  {
    if n > 0 {
      PowNonZero(x, n - 1);
      MulNonZero(x, Pow(x, n - 1));
    }
  }

  lemma MulNonZero(a: real, b: real)
    requires a != 0.0 && b != 0.0
    ensures a * b != 0.0
  {
  }

  /** A positive factor other than one, raised to a positive power, is not one. */
  lemma PowNotOne(q: real, n: nat)
    requires q > 0.0 && q != 1.0 && n >= 1
    ensures Pow(q, n) != 1.0
  {
    if q > 1.0 {
      PowAbove(q, n);
    } else {
      PowBelow(q, n);
    }
  }

  lemma {:induction false} PowAbove(q: real, n: nat)
    requires q > 1.0 && n >= 1
    ensures Pow(q, n) > 1.0
  {
    if n > 1 {
      PowAbove(q, n - 1);
      var p := Pow(q, n - 1);
      MulPositive(q - 1.0, p);
      assert q * p == (q - 1.0) * p + p;
    } else {
      assert Pow(q, 1) == q * Pow(q, 0);
    }
  }

  lemma {:induction false} PowBelow(q: real, n: nat)
    requires 0.0 < q < 1.0 && n >= 1
    ensures 0.0 < Pow(q, n) < 1.0
  {
    if n > 1 {
      PowBelow(q, n - 1);
      var p := Pow(q, n - 1);
      MulPositive(q, p);
      MulPositive(1.0 - q, p);
      assert q * p == p - (1.0 - q) * p;
    } else {
      assert Pow(q, 1) == q * Pow(q, 0);
    }
  }

  lemma MulPositive(a: real, b: real)
    requires a > 0.0 && b > 0.0
    ensures a * b > 0.0
  {
  }

  /** With a positive annuity factor `s`, an installment clears the loan
      exactly when it reaches `loan * q^n / s`. */
  lemma Threshold(loan: real, p: real, s: real, e: real)
    requires s > 0.0
    ensures loan * p - e * s <= 0.0 <==> e >= loan * p / s
  {
    var t := loan * p / s;
    assert t * s == loan * p;
    if e >= t {
      assert e * s >= t * s;
    }
    if e * s >= loan * p {
      assert e * s >= t * s;
    }
  }

  /** The exact, unrounded installment that leaves nothing owed after `n`
      months. */
  function Payoff(loan: real, rate: real, n: nat): real
    requires rate > -1.0 && n >= 1
  {
    GeomSumPositive(1.0 + rate, n);
    loan * Pow(1.0 + rate, n) / GeomSum(1.0 + rate, n)
  }

  /** An installment clears the loan exactly when it reaches `Payoff`. */
  lemma PayoffExact(loan: real, rate: real, n: nat, e: int)
    requires rate > -1.0 && n >= 1
    ensures Repays(loan, rate, e, n) <==> e as real >= Payoff(loan, rate, n)
  {
    GeomSumPositive(1.0 + rate, n);
    BalanceClosed(loan, 1.0 + rate, e as real, n);
    Threshold(loan, Pow(1.0 + rate, n), GeomSum(1.0 + rate, n), e as real);
  }

  /** The annuity formula is that threshold written with `rate = q - 1`. */
  lemma AnnuityThreshold(loan: real, rate: real, p: real, s: real)
    requires s > 0.0 && p != 1.0 && s * rate == p - 1.0
    ensures Annuity(loan, rate, p) == loan * p / s
  {
    var t := loan * p / s;
    assert t * s == loan * p;
    assert t * (p - 1.0) == t * s * rate == loan * rate * p;
    DivideBack(loan * rate * p, p - 1.0, t);
  }

  lemma DivideBack(x: real, d: real, t: real)
    requires d != 0.0 && x == t * d
    ensures x / d == t
  {
  }

  /** Both branches of `loan_emi` round up `Payoff`: the annuity formula
      when there is interest, the even split when there is none. */
  lemma InstallmentIsPayoff(loan: real, duration: nat, rate: real)
    requires rate > -1.0 && duration >= 1
    ensures Installment(loan, duration, rate) == Ok(Ceil(Payoff(loan, rate, duration)))
  {
    if rate == 0.0 {
      EvenSplitIsPayoff(loan, duration);
    } else {
      AnnuityIsPayoff(loan, duration, rate, Pow(1.0 + rate, duration), GeomSum(1.0 + rate, duration));
    }
  }

  lemma EvenSplitIsPayoff(loan: real, duration: nat)
    requires duration >= 1
    ensures Installment(loan, duration, 0.0) == Ok(Ceil(Payoff(loan, 0.0, duration)))
  {
    OnePow(duration);
    OnePowNat(duration);
    GeomSumOne(duration);
    assert Payoff(loan, 0.0, duration) == loan * 1.0 / duration as real;
  }

  /** Where the power is defined and not one, `loan_emi` takes the
      annuity formula. */
  lemma AnnuityBranch(loan: real, duration: int, rate: real, p: real)
    requires IntPow(1.0 + rate, duration) == Some(p) && p != 1.0
    ensures Installment(loan, duration, rate) == Ok(Ceil(Annuity(loan, rate, p)))
  {
  }

  lemma AnnuityIsPayoff(loan: real, duration: nat, rate: real, p: real, s: real)
    requires rate > -1.0 && rate != 0.0 && duration >= 1
    requires p == Pow(1.0 + rate, duration) && s == GeomSum(1.0 + rate, duration)
    ensures Installment(loan, duration, rate) == Ok(Ceil(Payoff(loan, rate, duration)))
  {
    GeomSumPositive(1.0 + rate, duration);
    PowNotOne(1.0 + rate, duration);
    GeomSumClosed(1.0 + rate, duration);
    AnnuityThreshold(loan, rate, p, s);
    assert Payoff(loan, rate, duration) == loan * p / s;
    AnnuityBranch(loan, duration, rate, p);
  }

  /** `loan_emi` is the least whole installment that pays a loan off over
      its duration: paying it leaves nothing owed after `duration` months,
      paying one less does not. */
  lemma EmiRepaysLoan(amount: real, duration: nat, rate: real, downPayment: real)
    requires rate > -1.0 && duration >= 1
    ensures LoanEmi(amount, duration, rate, downPayment).Ok?
    ensures Repays(amount - downPayment, rate, LoanEmi(amount, duration, rate, downPayment).value, duration)
    ensures !Repays(amount - downPayment, rate, LoanEmi(amount, duration, rate, downPayment).value - 1, duration)
  {
    InstallmentIsPayoff(amount - downPayment, duration, rate);
    var e := LoanEmi(amount, duration, rate, downPayment).value;
    PayoffExact(amount - downPayment, rate, duration, e);
    PayoffExact(amount - downPayment, rate, duration, e - 1);
  }

  /** Any whole installment that pays the loan off is at least `loan_emi`. */
  lemma EmiLeast(amount: real, duration: nat, rate: real, downPayment: real, e: int)
    requires rate > -1.0 && duration >= 1
    requires Repays(amount - downPayment, rate, e, duration)
    ensures LoanEmi(amount, duration, rate, downPayment).Ok?
    ensures LoanEmi(amount, duration, rate, downPayment).value <= e
  {
    InstallmentIsPayoff(amount - downPayment, duration, rate);
    PayoffExact(amount - downPayment, rate, duration, e);
    CeilLeast(Payoff(amount - downPayment, rate, duration), e);
  }

  /** An integer strictly above `x - 1` and not below `x` is its ceiling. */
  lemma CeilIs(x: real, c: int)
    requires (c - 1) as real < x <= c as real
    ensures Ceil(x) == c
  {
  }

  /** A loan of 100000 over 12 months at 1% a month: an installment of
      8885 (the annuity formula gives 8884.88...). */
  lemma ExampleLoan()
    ensures LoanEmi(100000.0, 12, 0.01, 0.0) == Ok(8885)
  {
    assert Pow(1.01, 1) == 1.01;
    assert Pow(1.01, 2) == 1.0201;
    assert Pow(1.01, 3) == 1.030301;
    assert Pow(1.01, 4) == 1.04060401;
    assert Pow(1.01, 5) == 1.0510100501;
    assert Pow(1.01, 6) == 1.061520150601;
    assert Pow(1.01, 7) == 1.07213535210701;
    assert Pow(1.01, 8) == 1.0828567056280801;
    assert Pow(1.01, 9) == 1.093685272684360901;
    assert Pow(1.01, 10) == 1.10462212541120451001;
    assert Pow(1.01, 11) == 1.1156683466653165551101;
    assert Pow(1.01, 12) == 1.126825030131969720661201;
    var p := Pow(1.01, 12);
    assert IntPow(1.01, 12) == Some(p);
    assert 1.0 + 0.01 == 1.01;
    AnnuityBranch(100000.0 - 0.0, 12, 0.01, p);
    CeilIs(Annuity(100000.0, 0.01, p), 8885);
  }

  /** Why the rate must stay above -1: at a rate of -3 over two months the
      formula gives -4, yet an installment of -10 also clears the loan. */
  lemma NegativeRate()
    ensures LoanEmi(1.0, 2, -3.0, 0.0) == Ok(-4)
    ensures Repays(1.0, -3.0, -10, 2) && -10 < -4
  {
    assert Pow(-2.0, 2) == 4.0;
    assert 1.0 + -3.0 == -2.0;
    AnnuityBranch(1.0 - 0.0, 2, -3.0, 4.0);
    assert Annuity(1.0, -3.0, 4.0) == -4.0;
    CeilIs(Annuity(1.0, -3.0, 4.0), -4);
    assert Balance(1.0, -2.0, -10.0, 1) == 8.0;
  }
}
