// Go's sort package as a stable insertion sort, and the byte order of strings.
module Sorting {

  ghost predicate Irreflexive<T(!new)>(less: (T, T) -> bool) {
    forall a :: !less(a, a)
  }

  ghost predicate Transitive<T(!new)>(less: (T, T) -> bool) {
    forall a, b, c :: less(a, b) && less(b, c) ==> less(a, c)
  }

  // Negated, "less" is transitive too: incomparable elements form classes.
  ghost predicate NegativelyTransitive<T(!new)>(less: (T, T) -> bool) {
    forall a, b, c :: less(a, c) ==> less(a, b) || less(b, c)
  }

  ghost predicate StrictWeakOrder<T(!new)>(less: (T, T) -> bool) {
    Irreflexive(less) && Transitive(less) && NegativelyTransitive(less)
  }

  predicate Tied<T>(less: (T, T) -> bool, a: T, b: T) { !less(a, b) && !less(b, a) }

  predicate Sorted<T>(s: seq<T>, less: (T, T) -> bool) {
    forall i, j :: 0 <= i < j < |s| ==> !less(s[j], s[i])
  }

  // The elements of s tied with x, in order.
  function Ties<T>(s: seq<T>, less: (T, T) -> bool, x: T): seq<T> {
    if s == [] then []
    else (if Tied(less, s[0], x) then [s[0]] else []) + Ties(s[1..], less, x)
  }

  function Insert<T>(x: T, s: seq<T>, less: (T, T) -> bool): seq<T> {
    if s == [] || less(x, s[0]) then [x] + s else [s[0]] + Insert(x, s[1..], less)
  }

  // sort.SliceStable.
  function StableSort<T>(s: seq<T>, less: (T, T) -> bool): seq<T> {
    if s == [] then [] else Insert(s[|s| - 1], StableSort(s[..|s| - 1], less), less)
  }

  lemma {:induction false} InsertPermutes<T>(x: T, s: seq<T>, less: (T, T) -> bool)
    ensures multiset(Insert(x, s, less)) == multiset(s) + multiset{x}
  {
    if s != [] && !less(x, s[0]) {
      InsertPermutes(x, s[1..], less);
      assert s == [s[0]] + s[1..];
    }
  }

  lemma {:induction false} InsertSorts<T(!new)>(x: T, s: seq<T>, less: (T, T) -> bool)
    requires StrictWeakOrder(less) && Sorted(s, less)
    ensures Sorted(Insert(x, s, less), less)
  {
    var r := Insert(x, s, less);
    if s == [] {
    } else if less(x, s[0]) {
      forall i, j | 0 <= i < j < |r| ensures !less(r[j], r[i]) {
        if i == 0 {
          assert r[j] == s[j - 1];
          assert j > 1 ==> !less(s[j - 1], s[0]);
        }
      }
    } else {
      InsertSorts(x, s[1..], less);
      var t := Insert(x, s[1..], less);
      InsertPermutes(x, s[1..], less);
      forall i, j | 0 <= i < j < |r| ensures !less(r[j], r[i]) {
        if i == 0 {
          assert r[j] == t[j - 1] && t[j - 1] in multiset(t);
          if r[j] != x {
            assert r[j] in s[1..];
          }
        }
      }
    }
  }

  lemma {:induction false} TiesAppend<T>(a: seq<T>, b: seq<T>, less: (T, T) -> bool, x: T)
    ensures Ties(a + b, less, x) == Ties(a, less, x) + Ties(b, less, x)
  {
    if a == [] {
      assert a + b == b;
    } else {
      assert (a + b)[1..] == a[1..] + b;
      TiesAppend(a[1..], b, less, x);
    }
  }

  lemma {:induction false} NoTies<T(!new)>(s: seq<T>, less: (T, T) -> bool, x: T)
    requires StrictWeakOrder(less) && forall i :: 0 <= i < |s| ==> less(x, s[i])
    ensures Ties(s, less, x) == []
  {
    if s != [] { NoTies(s[1..], less, x); }
  }

  lemma {:induction false} InsertIsStable<T(!new)>(x: T, s: seq<T>, less: (T, T) -> bool, y: T)
    requires StrictWeakOrder(less) && Sorted(s, less)
    ensures Ties(Insert(x, s, less), less, y) == Ties(s, less, y) + Ties([x], less, y)
  {
    if s == [] {
      assert [x] + s == [x];
    } else if less(x, s[0]) {
      TiesAppend([x], s, less, y);
      if Tied(less, x, y) {
        forall i | 0 <= i < |s| ensures less(y, s[i]) {
          if i > 0 { assert !less(s[i], s[0]); }
        }
        NoTies(s, less, y);
      }
    } else {
      InsertIsStable(x, s[1..], less, y);
      TiesAppend([s[0]], Insert(x, s[1..], less), less, y);
      TiesAppend([s[0]], s[1..], less, y);
      assert s == [s[0]] + s[1..];
    }
  }

  // A stable sort: sorted, a permutation, and tied elements keep their order.
  lemma {:induction false} StableSortCorrect<T(!new)>(s: seq<T>, less: (T, T) -> bool)
    requires StrictWeakOrder(less)
    ensures Sorted(StableSort(s, less), less)
    ensures multiset(StableSort(s, less)) == multiset(s)
    ensures forall y :: Ties(StableSort(s, less), less, y) == Ties(s, less, y)
  {
    if s != [] {
      var front, last := s[..|s| - 1], s[|s| - 1];
      assert s == front + [last];
      StableSortCorrect(front, less);
      var t := StableSort(front, less);
      InsertSorts(last, t, less);
      InsertPermutes(last, t, less);
      forall y ensures Ties(StableSort(s, less), less, y) == Ties(s, less, y) {
        InsertIsStable(last, t, less, y);
        TiesAppend(front, [last], less, y);
      }
    }
  }

  lemma CountTwo<T>(s: seq<T>, i: nat, j: nat)
    requires i < j < |s| && s[i] == s[j]
    ensures multiset(s)[s[i]] >= 2
  {
    assert s == s[..j] + s[j..];
    assert s[..j][i] == s[i] && s[j..][0] == s[i];
  }

  // Go's < on strings.
  predicate StringLess(a: string, b: string) {
    if b == [] then false
    else if a == [] then true
    else if a[0] != b[0] then a[0] < b[0]
    else StringLess(a[1..], b[1..])
  }

  lemma {:induction false} StringLessLaws(a: string, b: string, c: string)
    ensures !StringLess(a, a)
    ensures StringLess(a, b) && StringLess(b, c) ==> StringLess(a, c)
    ensures a != b ==> StringLess(a, b) || StringLess(b, a)
    decreases |a| + |b| + |c|
  {
    if a != [] { StringLessLaws(a[1..], if b == [] then [] else b[1..], if c == [] then [] else c[1..]); }
    if a != [] && b != [] && a != b && a[0] == b[0] {
      assert a == [a[0]] + a[1..] && b == [b[0]] + b[1..];
    }
  }

  lemma StringLessIsOrder()
    ensures StrictWeakOrder(StringLess)
  {
    forall a, b, c
      ensures !StringLess(a, a)
      ensures StringLess(a, b) && StringLess(b, c) ==> StringLess(a, c)
      ensures StringLess(a, c) ==> StringLess(a, b) || StringLess(b, c)
    {
      StringLessLaws(a, b, c);
      StringLessLaws(b, a, c);
      StringLessLaws(a, c, b);
      StringLessLaws(b, c, a);
    }
  }
}
