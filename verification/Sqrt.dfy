/** The integer square root by Newton's iteration. */
module Sqrt {
  import opened Arith
  import opened Mp
  import opened Division

  ghost predicate IsRoot(s: int, n: int)
  {
    s >= 0 && s * s <= n < (s + 1) * (s + 1)
  }

  lemma {:induction false} RootExists(n: nat) returns (s: nat)
    ensures IsRoot(s, n)
  {
    if n == 0 {
      s := 0;
    } else {
      s := RootExists(n - 1);
      if (s + 1) * (s + 1) <= n {
        s := s + 1;
        assert (s + 1) * (s + 1) == s * s + 2 * s + 1;
      }
    }
  }

  lemma RootUnique(s: int, t: int, n: int)
    requires IsRoot(s, n) && IsRoot(t, n)
    ensures s == t
  {
    if s < t {
      SquareLe(s + 1, t);
    } else if t < s {
      SquareLe(t + 1, s);
    }
  }

  lemma OnlyRoot(n: int, s: int)
    requires IsRoot(s, n)
    ensures forall t :: IsRoot(t, n) <==> t == s
  {
    hide IsRoot;
    forall t | IsRoot(t, n)
      ensures t == s
    {
      RootUnique(s, t, n);
    }
  }

  lemma SquareLe(a: int, b: int)
    requires 0 <= a <= b
    ensures a * a <= b * b
  {
    MulLe(a, a, b);
    MulLe(b, a, b);
  }

  /** Newton's step: t = n / x, rounded down, and then the average, rounded down. */
  ghost predicate IsStep(x: int, t: int, y: int, n: int)
  {
    x > 0 && t >= 0 && x * t <= n < x * (t + 1) && 2 * y <= x + t <= 2 * y + 1
  }

  /** n is one less than a square, and s the root of n: from s the next step overshoots. */
  ghost predicate Trap(s: int, n: int)
  {
    n == s * s + 2 * s
  }

  /** A step never goes below the root. */
  lemma StepAbove(x: int, t: int, y: int, n: int, s: int)
    requires IsStep(x, t, y, n) && IsRoot(s, n)
    ensures y >= s
  {
    var d := s - x;
    SumTimesDifference(s, d);
    SquareNonneg(d);
    if y < s {
      // x + (t + 1) <= 2s, so their product is at most s^2
      MulLe(x, t + 1, s + d);
    }
  }

  lemma SumTimesDifference(s: int, d: int)
    ensures (s - d) * (s + d) == s * s - d * d
  {
  }

  lemma SquareNonneg(d: int)
    ensures d * d >= 0
    ensures d * d == 0 ==> d == 0
  {
  }

  /** From above the root, stopping means having arrived. */
  lemma StopFromAbove(x: int, t: int, y: int, n: int, s: int)
    requires IsStep(x, t, y, n) && IsRoot(s, n) && x > s
    ensures t <= s && y < x
  {
    if t > s {
      MulLe(x, s + 1, t);
      MulLe(s + 1, s + 1, x);
    }
  }

  /** At the root itself the step stays, unless n is one less than a square. */
  lemma StepAtRoot(t: int, y: int, n: int, s: int)
    requires IsStep(s, t, y, n) && IsRoot(s, n) && !Trap(s, n)
    ensures y == s && y <= t
  {
    assert (s + 1) * (s + 1) == s * s + 2 * s + 1;
    assert s * (s + 2) == s * s + 2 * s;
    if t >= s + 2 {
      MulLe(s, s + 2, t);
    }
    if t < s {
      MulLe(s, t + 1, s);
    }
  }

  /** There the loop would stop one too high. */
  lemma TrapOvershoots(t: int, y: int, n: int, s: int)
    requires IsStep(s, t, y, n) && Trap(s, n)
    ensures t == s + 2 && y == s + 1 && !IsRoot(y, n)
  {
    assert s * (s + 2) == n;
    if t > s + 2 { MulLe(s, s + 3, t); }
    if t < s + 2 { MulLe(s, t + 1, s + 2); }
    assert (s + 1) * (s + 1) == n + 1;
  }

  /** When n is one less than a square, only s + 1 steps onto s. */
  lemma IntoTrap(x: int, t: int, n: int, s: int)
    requires IsStep(x, t, s, n) && IsRoot(s, n) && Trap(s, n)
    ensures x == s + 1 && t == s
  {
    var d := x - (s + 1);
    // x * (t + 1) > n means at least (s + 1)^2, while x + (t + 1) <= 2(s + 1)
    MulLe(x, t + 1, s + 1 - d);
    assert x * (s + 1 - d) == (s + 1) * (s + 1) - d * d by { assert x == s + 1 + d; }
    assert (s + 1) * (s + 1) == n + 1;
    SquareNonneg(d);
    TrapQuotient(t, n, s);
  }

  lemma TrapQuotient(t: int, n: int, s: int)
    requires s >= 0 && n == s * s + 2 * s && (s + 1) * t <= n < (s + 1) * (t + 1)
    ensures t == s
  {
    assert (s + 1) * (s + 1) == n + 1;
    assert (s + 1) * s <= n;
    if t > s { MulLe(s + 1, s + 1, t); }
    if t < s { MulLe(s + 1, t + 1, s); }
  }

  /** The seed n / p is never s + 1 when n is one less than (s + 1)^2. */
  lemma SeedMissesTrap(n: int, p: int, s: int)
    requires p > 0 && n > 0 && s >= 0 && Trap(s, n)
    ensures n / p != s + 1
  {
    assert n == s * (s + 2);
    assert (s + 1) * (s + 1) == n + 1;
    if n / p == s + 1 {
      DivModDef(n, p);
      // (s + 1) p <= n < (s + 2) p
      if s >= p {
        MulLe(s + 2, p, s);
      } else {
        MulLe(s + 1, s + 1, p);
      }
    }
  }

  /** t2 = arg / t1; t1 = (t1 + t2) / 2. */
  method NewtonStep(arg: Int, t1: Int, t2: Int)
    requires arg.Valid() && t1.Valid() && t2.Valid() && arg != t1 && arg != t2 && t1 != t2
    requires arg.Value() >= 0 && t1.Value() > 0
    modifies t1, t2
    ensures t1.Valid() && t2.Valid() && IsStep(old(t1.Value()), t2.Value(), t1.Value(), arg.Value())
  {
    hide Int.Value, Int.Valid, Halved;
    ghost var x := t1.Value();
    var r := new Int();
    var err, q, d := Div(arg, t1, t2, r);
    Add(t1, t2, t1);
    Div2(t1, t1);
    StepFromDivision(arg.Value(), x, t2.Value(), r.Value(), t1.Value());
  }

  lemma StepFromDivision(n: int, x: int, t: int, r: int, y: int)
    requires n >= 0 && x > 0 && IsDivision(n, x, t, r) && y == Halved(x + t)
    ensures IsStep(x, t, y, n)
  {
    assert n == t * x + r;
    if t < 0 { MulLe(x, t, -1); }
    assert x * (t + 1) == t * x + x;
  }

  /** mp_sqrt. */
  method SquareRoot(arg: Int, ret: Int) returns (err: Err)
    requires arg.Valid() && ret.Valid()
    modifies ret
    ensures err == if old(arg.Value()) < 0 then VAL else OKAY
    ensures err != OKAY ==> unchanged(ret)
    ensures err == OKAY ==> ret.Valid() && IsRoot(ret.Value(), old(arg.Value()))
    ensures err == OKAY ==> forall s :: IsRoot(s, old(arg.Value())) ==> s == ret.Value()
  {
    hide Int.Value, Int.Valid, IsStep, IsRoot, Trap;
    if arg.Value() < 0 {
      return VAL;
    }
    ghost var n: nat := arg.Value();
    ghost var s := RootExists(n);
    OnlyRoot(n, s);
    if arg.Value() == 0 {
      Set(ret, 0);
      ZeroRoot(n, s);
      return OKAY;
    }
    var t1 := FindRoot(arg, s);
    Exch(t1, ret);
    err := OKAY;
  }

  lemma ZeroRoot(n: int, s: int)
    requires IsRoot(s, n) && n == 0
    ensures s == 0
  {
  }

  /** The seed and the loop. */
  method FindRoot(arg: Int, ghost s: nat) returns (t1: Int)
    requires arg.Valid() && arg.Value() > 0 && IsRoot(s, arg.Value())
    ensures fresh(t1) && t1.Valid() && t1.Value() == s
  {
    hide Int.Value, Int.Valid, IsStep, IsRoot, Trap, Shifted, Pow;
    ghost var n := arg.Value();
    t1 := new Int();
    var t2 := new Int();
    Copy(arg, t1);
    Seed(arg, s);
    SameUsed(arg, t1);
    Rshd(t1, t1.used / 2);
    ghost var x := t1.Value();
    NewtonStep(arg, t1, t2);
    FirstStep(x, t2.Value(), t1.Value(), n, s);
    while true
      invariant t1.Valid() && t2.Valid() && t1.Value() >= s && t1.Value() > 0
      invariant Trap(s, n) ==> t1.Value() > s
      decreases t1.Value()
    {
      x := t1.Value();
      NewtonStep(arg, t1, t2);
      LoopStep(x, t2.Value(), t1.Value(), n, s);
      if t1.Value() <= t2.Value() {
        break;
      }
    }
  }

  lemma SameUsed(a: Int, b: Int)
    requires a.Valid() && b.Valid() && a.Value() == b.Value()
    ensures a.used == b.used
  {
    hide Pow;
    MagBounds(a);
    MagBounds(b);
    if a.used < b.used {
      PowMonotone(B, a.used, b.used - 1);
    } else if b.used < a.used {
      PowMonotone(B, b.used, a.used - 1);
    }
  }

  lemma Seed(a: Int, s: nat)
    requires a.Valid() && a.Value() > 0 && IsRoot(s, a.Value())
    ensures Pow(B, a.used / 2) > 0 && Shifted(a.Value(), Pow(B, a.used / 2)) > 0
    ensures Trap(s, a.Value()) ==> Shifted(a.Value(), Pow(B, a.used / 2)) != s + 1
  {
    hide Pow;
    MagBounds(a);
    NonnegValue(a);
    var p, n := Pow(B, a.used / 2), a.Value();
    PowMonotone(B, a.used / 2, a.used - 1);
    DivModDef(n, p);
    if n / p < 1 {
      MulLe(p, n / p, 0);
    }
    if Trap(s, n) {
      SeedMissesTrap(n, p, s);
    }
  }

  lemma FirstStep(x: int, t: int, y: int, n: int, s: int)
    requires n > 0 && IsStep(x, t, y, n) && IsRoot(s, n) && (Trap(s, n) ==> x != s + 1)
    ensures y >= s && y > 0 && (Trap(s, n) ==> y > s)
  {
    hide IsStep;
    StepAbove(x, t, y, n, s);
    if Trap(s, n) && y == s {
      IntoTrap(x, t, n, s);
    }
  }

  lemma LoopStep(x: int, t: int, y: int, n: int, s: int)
    requires n > 0 && IsStep(x, t, y, n) && IsRoot(s, n) && x >= s && (Trap(s, n) ==> x > s)
    ensures if y <= t then y == s else s <= y < x && y > 0 && (Trap(s, n) ==> y > s)
  {
    StepAbove(x, t, y, n, s);
    if x > s {
      StopFromAbove(x, t, y, n, s);
      if Trap(s, n) && y == s {
        IntoTrap(x, t, n, s);
      }
    } else {
      StepAtRoot(t, y, n, s);
    }
  }
}
