/** Lists, sets and optional values shared by the models. */
module Collections {

  datatype Option<+T> = None | Some(value: T)

  ghost predicate Distinct<T>(s: seq<T>) {
    forall i, j :: 0 <= i < j < |s| ==> s[i] != s[j]
  }

  ghost predicate Within<T>(p: seq<T>, s: set<T>) {
    forall i :: 0 <= i < |p| ==> p[i] in s
  }

  ghost function Members<T>(s: seq<T>): set<T> {
    set v | v in s
  }

  /** Position of the first occurrence, or -1. */
  function IndexOf<T(==)>(s: seq<T>, x: T): (k: int)
    ensures -1 <= k < |s|
    ensures k == -1 <==> x !in s
    ensures k >= 0 ==> s[k] == x && x !in s[..k]
  {
    if s == [] then -1
    else if s[0] == x then 0
    else
      var k := IndexOf(s[1..], x);
      assert x in s <==> x in s[1..];
      assert k >= 0 ==> s[..k + 1] == [s[0]] + s[1..][..k];
      if k == -1 then -1 else k + 1
  }

  /** The list with every occurrence of `x` filtered out. */
  function Without<T(==)>(s: seq<T>, x: T): (r: seq<T>)
    ensures x !in r && forall y :: y in r ==> y in s
    ensures forall y :: y in s && y != x ==> y in r
    ensures Distinct(s) ==> Distinct(r)
  {
    if s == [] then []
    else if s[0] == x then Without(s[1..], x)
    else
      var r := Without(s[1..], x);
      assert forall y :: y in s ==> y == s[0] || y in s[1..];
      assert Distinct(s) ==> s[0] !in s[1..];
      [s[0]] + r
  }

  lemma TailConcat<T>(a: seq<T>, b: seq<T>)
    requires a != []
    ensures a + b != [] && (a + b)[0] == a[0] && (a + b)[1..] == a[1..] + b
  {
  }

  lemma ConsConcat<T>(x: T, a: seq<T>, b: seq<T>)
    ensures ([x] + a) + b == [x] + (a + b)
  {
  }

  lemma EmptyConcat<T>(a: seq<T>, b: seq<T>)
    requires a == []
    ensures a + b == b
  {
  }

  lemma {:induction false} WithoutConcat<T>(a: seq<T>, b: seq<T>, x: T)
    ensures Without(a + b, x) == Without(a, x) + Without(b, x)
    decreases |a|
  {
    hide Distinct;
    if a == [] {
      EmptyConcat(a, b);
      EmptyConcat(Without(a, x), Without(b, x));
    } else {
      hide Without;
      TailConcat(a, b);
      WithoutConcat(a[1..], b, x);
      WithoutFirst(a + b, x);
      WithoutFirst(a, x);
      ConsConcat(a[0], Without(a[1..], x), Without(b, x));
    }
  }

  lemma WithoutFirst<T>(s: seq<T>, x: T)
    requires s != []
    ensures Without(s, x) == if s[0] == x then Without(s[1..], x) else [s[0]] + Without(s[1..], x)
  {
  }

  /** What is kept is kept as often. */
  lemma {:induction false} WithoutCounts<T>(s: seq<T>, x: T)
    ensures multiset(Without(s, x)) == multiset(s)[x := 0]
  {
    if s != [] {
      hide Without;
      assert s == [s[0]] + s[1..];
      WithoutFirst(s, x);
      WithoutCounts(s[1..], x);
    }
  }

  /** Some occurrence of a lies before some occurrence of b. */
  ghost predicate Precedes<T>(s: seq<T>, a: T, b: T) {
    exists i, j :: 0 <= i < j < |s| && s[i] == a && s[j] == b
  }

  lemma PrecedesAppend<T>(s: seq<T>, last: T, a: T, b: T)
    ensures Precedes(s + [last], a, b) <==> Precedes(s, a, b) || (last == b && a in s)
  {
    var t := s + [last];
    if i, j :| 0 <= i < j < |s| && s[i] == a && s[j] == b {
      assert t[i] == a && t[j] == b;
    }
    if last == b && a in s {
      var i :| 0 <= i < |s| && s[i] == a;
      assert t[i] == a && t[|s|] == b;
    }
    if i, j :| 0 <= i < j < |t| && t[i] == a && t[j] == b {
      assert s[i] == a;
    }
  }

  /** What is kept stays in order. */
  lemma {:induction false} WithoutKeepsOrder<T>(s: seq<T>, x: T, a: T, b: T)
    requires a != x && b != x
    ensures Precedes(Without(s, x), a, b) <==> Precedes(s, a, b)
    decreases |s|
  {
    hide Precedes;
    if s == [] {
    } else {
      var n := |s| - 1;
      assert s == s[..n] + [s[n]];
      WithoutKeepsOrder(s[..n], x, a, b);
      WithoutConcat(s[..n], [s[n]], x);
      PrecedesAppend(s[..n], s[n], a, b);
      WithoutOne(s[n], x);
      if s[n] != x {
        PrecedesAppend(Without(s[..n], x), s[n], a, b);
      } else {
        assert Without(s[..n], x) + [] == Without(s[..n], x);
      }
    }
  }

  /** The members of `list` stand in `s` in the order of `list`. */
  ghost predicate Ordered<T>(s: seq<T>, list: seq<T>) {
    forall i, j :: 0 <= i < j < |list| ==> Precedes(s, list[i], list[j])
  }

  lemma OrderedSelf<T>(s: seq<T>)
    ensures Ordered(s, s) && Ordered(s, [])
  {
  }

  lemma OrderedTrans<T>(s: seq<T>, part: seq<T>, list: seq<T>)
    requires Ordered(s, part) && Ordered(part, list)
    ensures Ordered(s, list)
  {
    forall i, j | 0 <= i < j < |list|
      ensures Precedes(s, list[i], list[j])
    {
      assert Precedes(part, list[i], list[j]);
    }
  }

  lemma OrderedAppend<T>(s: seq<T>, list: seq<T>, n: nat)
    requires Ordered(s, list) && n < |s| && forall x :: x in list ==> x in s[..n]
    ensures Ordered(s, list + [s[n]])
  {
    forall i | 0 <= i < |list|
      ensures Precedes(s, list[i], s[n])
    {
      assert list[i] in s[..n];
    }
  }

  lemma WithoutOrdered<T>(s: seq<T>, x: T)
    ensures Ordered(s, Without(s, x))
  {
    var kept := Without(s, x);
    forall i, j | 0 <= i < j < |kept|
      ensures Precedes(s, kept[i], kept[j])
    {
      assert kept[i] in kept && kept[j] in kept && Precedes(kept, kept[i], kept[j]);
      WithoutKeepsOrder(s, x, kept[i], kept[j]);
    }
  }

  lemma WithoutOne<T>(y: T, x: T)
    ensures Without([y], x) == if y == x then [] else [y]
  {
  }

  /** A list of distinct members of a set is no longer than the set. */
  lemma SubsetLength<T>(p: seq<T>, s: set<T>)
    requires Within(p, s) && Distinct(p)
    ensures |p| <= |s|
  {
    if p != [] {
      var last := p[|p| - 1];
      SubsetLength(p[..|p| - 1], s - {last});
    }
  }

  lemma {:induction false} DistinctMembers<T>(s: seq<T>)
    requires Distinct(s)
    ensures |Members(s)| == |s|
  {
    if s == [] {
      assert Members(s) == {};
    } else {
      var n := |s| - 1;
      DistinctMembers(s[..n]);
      MembersLast(s);
    }
  }

  lemma MembersLast<T>(s: seq<T>)
    requires s != []
    ensures Members(s) == Members(s[..|s| - 1]) + {s[|s| - 1]}
    ensures Distinct(s) ==> s[|s| - 1] !in Members(s[..|s| - 1])
  {
  }

  lemma SubsetSize<T>(a: set<T>, b: set<T>)
    requires a <= b
    ensures |a| <= |b|
    ensures |a| == |b| ==> a == b
  {
    if a != {} {
      var x :| x in a;
      SubsetSize(a - {x}, b - {x});
      assert a == a - {x} + {x} && b == b - {x} + {x};
    }
  }

  // ----- lists of lists

  ghost function Flatten<T>(lists: seq<seq<T>>): seq<T> {
    if lists == [] then [] else Flatten(lists[..|lists| - 1]) + lists[|lists| - 1]
  }

  lemma FlattenAppend<T>(lists: seq<seq<T>>, list: seq<T>)
    ensures Flatten(lists + [list]) == Flatten(lists) + list
  {
    assert (lists + [list])[..|lists|] == lists;
  }

  lemma {:induction false} FlattenJoin<T>(a: seq<seq<T>>, b: seq<seq<T>>)
    ensures Flatten(a + b) == Flatten(a) + Flatten(b)
  {
    if b == [] {
      assert a + b == a && Flatten(b) == [];
    } else {
      hide Flatten;
      var n := |b| - 1;
      FlattenJoin(a, b[..n]);
      assert a + b == (a + b[..n]) + [b[n]] && b == b[..n] + [b[n]];
      FlattenAppend(a + b[..n], b[n]);
      FlattenAppend(b[..n], b[n]);
    }
  }

  lemma FlattenMiddle<T>(a: seq<seq<T>>, list: seq<T>, b: seq<seq<T>>)
    ensures Flatten((a + [list]) + b) == (Flatten(a) + list) + Flatten(b)
  {
    hide Flatten;
    FlattenAppend(a, list);
    FlattenJoin(a + [list], b);
  }

  lemma SplitAround<T>(list: seq<T>, k: nat)
    requires k < |list|
    ensures list == (list[..k] + [list[k]]) + list[k + 1..]
  {
  }

  /** Around one of the lists. */
  lemma FlattenAround<T>(lists: seq<seq<T>>, k: nat)
    requires k < |lists|
    ensures Flatten(lists) == (Flatten(lists[..k]) + lists[k]) + Flatten(lists[k + 1..])
    ensures Flatten(lists[..k] + lists[k + 1..]) == Flatten(lists[..k]) + Flatten(lists[k + 1..])
  {
    hide Flatten;
    SplitAround(lists, k);
    FlattenMiddle(lists[..k], lists[k], lists[k + 1..]);
    FlattenJoin(lists[..k], lists[k + 1..]);
  }

  lemma {:induction false} FlattenEmpty<T>(lists: seq<seq<T>>)
    ensures Flatten(lists) == [] <==> forall k :: 0 <= k < |lists| ==> lists[k] == []
  {
    if lists != [] {
      var n := |lists| - 1;
      FlattenEmpty(lists[..n]);
      assert forall k :: 0 <= k < n ==> lists[..n][k] == lists[k];
    }
  }
}
