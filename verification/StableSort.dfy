/**
 * The stable sort that `list.sort` and `sorted` promise. `before(a, b)` says that a's key comes strictly
 * before b's; elements whose keys tie keep their order.
 */
module StableSort {

  ghost predicate StrictWeakOrder<T(!new)>(before: (T, T) -> bool) {
    && (forall a :: !before(a, a))
    && (forall a, b, c :: before(a, b) && before(b, c) ==> before(a, c))
    && (forall a, b, c :: !before(a, b) && !before(b, c) ==> !before(a, c))
  }

  function Insert<T>(before: (T, T) -> bool, x: T, s: seq<T>): (r: seq<T>)
    ensures |r| == |s| + 1
    ensures multiset(r) == multiset{x} + multiset(s)
  {
    if s == [] then [x]
    else if before(s[0], x) then
      assert s == [s[0]] + s[1..];
      [s[0]] + Insert(before, x, s[1..])
    else [x] + s
  }

  function Sort<T>(before: (T, T) -> bool, s: seq<T>): (r: seq<T>)
    ensures |r| == |s|
    ensures multiset(r) == multiset(s)
  {
    if s == [] then []
    else
      assert s == [s[0]] + s[1..];
      Insert(before, s[0], Sort(before, s[1..]))
  }

  ghost predicate Sorted<T>(before: (T, T) -> bool, s: seq<T>) {
    forall i, j :: 0 <= i < j < |s| ==> !before(s[j], s[i])
  }

  /** The elements that tie with x, in order. */
  ghost function Ties<T>(before: (T, T) -> bool, s: seq<T>, x: T): seq<T> {
    if s == [] then []
    else (if before(s[0], x) || before(x, s[0]) then [] else [s[0]]) + Ties(before, s[1..], x)
  }

  lemma SameElements<T>(r: seq<T>, s: seq<T>)
    requires multiset(r) == multiset(s)
    ensures forall x :: x in r <==> x in s
  {
    forall x ensures x in r <==> x in s {
      assert x in r <==> x in multiset(r);
    }
  }

  lemma {:induction false} InsertSorted<T(!new)>(before: (T, T) -> bool, x: T, s: seq<T>)
    requires StrictWeakOrder(before) && Sorted(before, s)
    ensures Sorted(before, Insert(before, x, s))
  {
    if s != [] && before(s[0], x) {
      var rest := Insert(before, x, s[1..]);
      InsertSorted(before, x, s[1..]);
      SameElements(rest, [x] + s[1..]);
      forall y | y in rest ensures !before(y, s[0]) {
        if y != x {
          var k :| 0 <= k < |s[1..]| && s[1..][k] == y;
        }
      }
    } else if s != [] {
      forall j | 0 <= j < |s| ensures !before(s[j], x) {
        assert j > 0 ==> !before(s[j], s[0]);
      }
    }
  }

  lemma {:induction false} SortSorted<T(!new)>(before: (T, T) -> bool, s: seq<T>)
    requires StrictWeakOrder(before)
    ensures Sorted(before, Sort(before, s))
  {
    if s != [] {
      SortSorted(before, s[1..]);
      InsertSorted(before, s[0], Sort(before, s[1..]));
    }
  }

  lemma {:induction false} InsertTies<T(!new)>(before: (T, T) -> bool, x: T, s: seq<T>, y: T)
    requires StrictWeakOrder(before)
    ensures Ties(before, Insert(before, x, s), y) == Ties(before, [x] + s, y)
  {
    assert ([x] + s)[1..] == s;
    if s != [] && before(s[0], x) {
      InsertTies(before, x, s[1..], y);
      assert ([x] + s[1..])[1..] == s[1..];
      assert Insert(before, x, s)[1..] == Insert(before, x, s[1..]);
    }
  }

  lemma {:induction false} SortStable<T(!new)>(before: (T, T) -> bool, s: seq<T>, y: T)
    requires StrictWeakOrder(before)
    ensures Ties(before, Sort(before, s), y) == Ties(before, s, y)
  {
    if s != [] {
      SortStable(before, s[1..], y);
      InsertTies(before, s[0], Sort(before, s[1..]), y);
      var t := Sort(before, s[1..]);
      assert ([s[0]] + t)[1..] == t;
    }
  }

  lemma {:induction false} TiesContain<T(!new)>(before: (T, T) -> bool, s: seq<T>, x: T)
    requires StrictWeakOrder(before) && x in s
    ensures x in Ties(before, s, x)
  {
    if s[0] != x {
      TiesContain(before, s[1..], x);
    }
  }

  lemma {:induction false} TiesFrom<T>(before: (T, T) -> bool, s: seq<T>, x: T, y: T)
    requires y in Ties(before, s, x)
    ensures y in s && !before(y, x) && !before(x, y)
  {
    if s != [] && y !in Ties(before, s[1..], x) {
    } else if s != [] {
      TiesFrom(before, s[1..], x, y);
    }
  }

  /** A sorted list with the same ties everywhere is the same list: the stable sort is unique. */
  lemma {:induction false} StableSortUnique<T(!new)>(before: (T, T) -> bool, a: seq<T>, b: seq<T>)
    requires StrictWeakOrder(before) && Sorted(before, a) && Sorted(before, b)
    requires forall x :: Ties(before, a, x) == Ties(before, b, x)
    ensures a == b
    decreases |a| + |b|
  {
    forall x | x in b ensures x in a {
      TiesContain(before, b, x);
      TiesFrom(before, a, x, x);
    }
    assert b == [] || b[0] in b;
    if a != [] {
      TiesContain(before, a, a[0]);
      TiesFrom(before, b, a[0], a[0]);
      TiesContain(before, b, b[0]);
      assert !before(a[0], b[0]) && !before(b[0], a[0]);
      assert Ties(before, a, a[0])[0] == a[0] && Ties(before, b, a[0])[0] == b[0];
      forall x ensures Ties(before, a[1..], x) == Ties(before, b[1..], x) {
        assert Ties(before, a, x) == Ties(before, b, x);
        var head := if before(a[0], x) || before(x, a[0]) then [] else [a[0]];
        assert Ties(before, a, x) == head + Ties(before, a[1..], x);
        assert Ties(before, b, x) == head + Ties(before, b[1..], x);
        assert Ties(before, a[1..], x) == Ties(before, a, x)[|head|..];
        assert Ties(before, b[1..], x) == Ties(before, b, x)[|head|..];
      }
      StableSortUnique(before, a[1..], b[1..]);
    }
  }

  /** Any sorted list with the ties of s, whatever algorithm made it, is `Sort(before, s)`. */
  lemma SortIsTheStableSort<T(!new)>(before: (T, T) -> bool, s: seq<T>, r: seq<T>)
    requires StrictWeakOrder(before) && Sorted(before, r)
    requires forall x :: Ties(before, r, x) == Ties(before, s, x)
    ensures r == Sort(before, s)
  {
    SortSorted(before, s);
    forall x ensures Ties(before, r, x) == Ties(before, Sort(before, s), x) {
      SortStable(before, s, x);
    }
    StableSortUnique(before, r, Sort(before, s));
  }
}
