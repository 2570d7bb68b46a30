/** Sums of real numbers over finite sets. */
module FiniteSums {
  ghost function Sum<T(!new)>(f: T -> real, s: set<T>): real {
    if s == {} then 0.0
    else
      var x :| x in s;
      f(x) + Sum(f, s - {x})
  }

  /** Any element can be taken out first. */
  lemma {:induction false} TakeOut<T(!new)>(f: T -> real, s: set<T>, x: T)
    requires x in s
    ensures Sum(f, s) == f(x) + Sum(f, s - {x})
  {
    var y :| y in s && Sum(f, s) == f(y) + Sum(f, s - {y});
    if y != x {
      TakeOut(f, s - {y}, x);
      TakeOut(f, s - {x}, y);
      assert s - {y} - {x} == s - {x} - {y};
    }
  }

  lemma PutIn<T(!new)>(f: T -> real, s: set<T>, x: T)
    requires x !in s
    ensures Sum(f, s + {x}) == Sum(f, s) + f(x)
  {
    TakeOut(f, s + {x}, x);
    assert s + {x} - {x} == s;
  }

  lemma {:induction false} SumSame<T(!new)>(f: T -> real, g: T -> real, s: set<T>)
    requires forall x :: x in s ==> f(x) == g(x)
    ensures Sum(f, s) == Sum(g, s)
  {
    if s != {} {
      var x :| x in s;
      SumSame(f, g, s - {x});
      TakeOut(f, s, x);
      TakeOut(g, s, x);
    }
  }

  lemma {:induction false} SumPlus<T(!new)>(f: T -> real, g: T -> real, h: T -> real, s: set<T>)
    requires forall x :: x in s ==> h(x) == f(x) + g(x)
    ensures Sum(h, s) == Sum(f, s) + Sum(g, s)
  {
    if s != {} {
      var x :| x in s;
      SumPlus(f, g, h, s - {x});
      TakeOut(f, s, x);
      TakeOut(g, s, x);
      TakeOut(h, s, x);
    }
  }

  lemma {:induction false} SumDisjoint<T(!new)>(f: T -> real, a: set<T>, b: set<T>)
    requires a !! b
    ensures Sum(f, a + b) == Sum(f, a) + Sum(f, b)
  {
    if b == {} {
      assert a + b == a;
    } else {
      var x :| x in b;
      SumDisjoint(f, a, b - {x});
      TakeOut(f, b, x);
      PutIn(f, a + (b - {x}), x);
      assert a + (b - {x}) + {x} == a + b;
    }
  }
}
