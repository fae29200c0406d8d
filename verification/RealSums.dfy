/** Sums of real-valued functions over finite sets. */
module RealSums {

  ghost function Total<T>(s: set<T>, f: T -> real): real {
    if s == {} then 0.0
    else
      var x :| x in s;
      f(x) + Total(s - {x}, f)
  }

  /** Any member may be split off. */
  lemma {:induction false} TotalPick<T>(s: set<T>, x: T, f: T -> real)
    requires x in s
    ensures Total(s, f) == f(x) + Total(s - {x}, f)
    decreases |s|
  {
    var y :| y in s && Total(s, f) == f(y) + Total(s - {y}, f);
    if y != x {
      TotalPick(s - {y}, x, f);
      TotalPick(s - {x}, y, f);
      assert s - {y} - {x} == s - {x} - {y};
    }
  }

  lemma {:induction false} TotalCongruence<T>(s: set<T>, f: T -> real, g: T -> real)
    requires forall x :: x in s ==> f(x) == g(x)
    ensures Total(s, f) == Total(s, g)
    decreases |s|
  {
    if s != {} {
      var x :| x in s;
      TotalPick(s, x, f);
      TotalPick(s, x, g);
      TotalCongruence(s - {x}, f, g);
    }
  }

  lemma {:induction false} TotalZero<T>(s: set<T>, f: T -> real)
    requires forall x :: x in s ==> f(x) == 0.0
    ensures Total(s, f) == 0.0
    decreases |s|
  {
    if s != {} {
      var x :| x in s;
      TotalPick(s, x, f);
      TotalZero(s - {x}, f);
    }
  }

  lemma {:induction false} TotalAdd<T>(s: set<T>, f: T -> real, g: T -> real, h: T -> real)
    requires forall x :: x in s ==> h(x) == f(x) + g(x)
    ensures Total(s, h) == Total(s, f) + Total(s, g)
    decreases |s|
  {
    if s != {} {
      var x :| x in s;
      TotalPick(s, x, f);
      TotalPick(s, x, g);
      TotalPick(s, x, h);
      TotalAdd(s - {x}, f, g, h);
    }
  }

  /** Multiplication under a name, so that proofs can treat it as uninterpreted. */
  function Times(a: real, b: real): real { a * b }

  lemma TimesDistributes(c: real, a: real, b: real)
    ensures Times(c, a + b) == Times(c, a) + Times(c, b)
    ensures Times(c, 0.0) == 0.0
  {
  }

  lemma TimesOne(c: real)
    ensures Times(c, 1.0) == c
  {
  }

  lemma {:induction false} TotalScale<T>(s: set<T>, c: real, f: T -> real, g: T -> real)
    requires forall x :: x in s ==> g(x) == Times(c, f(x))
    ensures Total(s, g) == Times(c, Total(s, f))
    decreases |s|
  {
    hide Times;
    TimesDistributes(c, 0.0, 0.0);
    if s != {} {
      var x :| x in s;
      TotalPick(s, x, f);
      TotalPick(s, x, g);
      TotalScale(s - {x}, c, f, g);
      TimesDistributes(c, f(x), Total(s - {x}, f));
    }
  }

  /** Members outside `keep` contribute nothing. */
  lemma {:induction false} TotalSubset<T>(s: set<T>, keep: set<T>, f: T -> real)
    requires keep <= s && forall x :: x in s - keep ==> f(x) == 0.0
    ensures Total(s, f) == Total(keep, f)
    decreases |s|
  {
    if s - keep == {} {
      assert s == keep;
    } else {
      var x :| x in s - keep;
      TotalPick(s, x, f);
      TotalSubset(s - {x}, keep, f);
    }
  }

  /** Row x of a two-argument summand. */
  function Row<S, T>(f: (S, T) -> real, x: S): T -> real { y => f(x, y) }

  function Column<S, T>(f: (S, T) -> real, y: T): S -> real { x => f(x, y) }

  ghost function RowTotals<S, T>(f: (S, T) -> real, t: set<T>): S -> real { x => Total(t, Row(f, x)) }

  ghost function ColumnTotals<S, T>(f: (S, T) -> real, s: set<S>): T -> real { y => Total(s, Column(f, y)) }

  /** The order of two summations may be exchanged. */
  lemma {:induction false} TotalExchange<S, T>(s: set<S>, t: set<T>, f: (S, T) -> real)
    ensures Total(s, RowTotals(f, t)) == Total(t, ColumnTotals(f, s))
    decreases |s|
  {
    if s == {} {
      TotalZero(t, ColumnTotals(f, s));
    } else {
      var x :| x in s;
      TotalPick(s, x, RowTotals(f, t));
      TotalExchange(s - {x}, t, f);
      forall y | y in t
        ensures ColumnTotals(f, s)(y) == Row(f, x)(y) + ColumnTotals(f, s - {x})(y)
      {
        TotalPick(s, x, Column(f, y));
      }
      TotalAdd(t, Row(f, x), ColumnTotals(f, s - {x}), ColumnTotals(f, s));
    }
  }

  // ----- counting

  lemma {:induction false} TotalOnes<T>(s: set<T>, f: T -> real)
    requires forall x :: x in s ==> f(x) == 1.0
    ensures Total(s, f) == |s| as real
    decreases |s|
  {
    if s != {} {
      var x :| x in s;
      TotalPick(s, x, f);
      TotalOnes(s - {x}, f);
    }
  }

  /** Sets in one-to-one correspondence have the same size. */
  lemma {:induction false} SameSize<A, B>(a: set<A>, b: set<B>, f: A -> B)
    requires forall x :: x in a ==> f(x) in b
    requires forall x, y :: x in a && y in a && f(x) == f(y) ==> x == y
    requires forall z :: z in b ==> exists x :: x in a && f(x) == z
    ensures |a| == |b|
    decreases |a|
  {
    if a == {} {
      assert forall z :: z !in b;
    } else {
      var x :| x in a;
      SameSize(a - {x}, b - {f(x)}, f);
    }
  }

  /** The members of `s` that `f` sends to `x`. */
  function Fibre<A(==), B(==)>(s: set<A>, f: A -> B, x: B): set<A> {
    set p | p in s && f(p) == x
  }

  ghost function FibreSizes<A, B>(s: set<A>, f: A -> B): B -> real { x => |Fibre(s, f, x)| as real }

  /** A set is as large as its fibres together. */
  lemma {:induction false} SizeByFibres<A, B>(s: set<A>, f: A -> B, classes: set<B>)
    requires forall p :: p in s ==> f(p) in classes
    ensures |s| as real == Total(classes, FibreSizes(s, f))
    decreases |s|
  {
    if s == {} {
      forall x | x in classes
        ensures FibreSizes(s, f)(x) == 0.0
      {
        assert Fibre(s, f, x) == {};
      }
      TotalZero(classes, FibreSizes(s, f));
    } else {
      var p :| p in s;
      var rest := s - {p};
      SizeByFibres(rest, f, classes);
      var k := f(p);
      TotalPick(classes, k, FibreSizes(s, f));
      TotalPick(classes, k, FibreSizes(rest, f));
      assert Fibre(s, f, k) == Fibre(rest, f, k) + {p};
      forall x | x in classes - {k}
        ensures FibreSizes(s, f)(x) == FibreSizes(rest, f)(x)
      {
        assert Fibre(s, f, x) == Fibre(rest, f, x);
      }
      TotalCongruence(classes - {k}, FibreSizes(s, f), FibreSizes(rest, f));
    }
  }
}
