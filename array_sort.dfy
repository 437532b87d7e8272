/**
 * `Array.prototype.sort(comparefn)`, which ECMA-262 requires to be stable, modelled as a
 * stable insertion sort. `cmp(a, b) < 0` puts `a` first, `> 0` puts `b` first, `0` keeps
 * the input order.
 */
module ArraySort {

  /** Inserts `x` before the first element it does not compare greater than. */
  function Insert<T>(x: T, t: seq<T>, cmp: (T, T) -> real): (r: seq<T>)
    ensures multiset(r) == multiset(t) + multiset{x}
  {
    if t == [] then [x]
    else if cmp(x, t[0]) <= 0.0 then [x] + t
    else
      assert t == [t[0]] + t[1..];
      [t[0]] + Insert(x, t[1..], cmp)
  }

  /** The sorted copy: nothing is added, dropped or duplicated, whatever `cmp` does. */
  function Sort<T>(s: seq<T>, cmp: (T, T) -> real): (r: seq<T>)
    ensures multiset(r) == multiset(s)
  {
    if s == [] then []
    else
      assert s == [s[0]] + s[1..];
      Insert(s[0], Sort(s[1..], cmp), cmp)
  }

  /**
   * ECMA-262's "consistent comparator" on the values in `s`: the sign flips when the
   * operands are swapped, and "not after" is transitive.
   */
  ghost predicate Consistent<T>(cmp: (T, T) -> real, s: seq<T>) {
    && (forall a, b | a in s && b in s :: cmp(a, b) < 0.0 <==> cmp(b, a) > 0.0)
    && (forall a, b, c {:trigger cmp(a, b), cmp(b, c), cmp(a, c)} | a in s && b in s && c in s ::
          cmp(a, b) <= 0.0 && cmp(b, c) <= 0.0 ==> cmp(a, c) <= 0.0)
  }

  ghost predicate Sorted<T>(s: seq<T>, cmp: (T, T) -> real) {
    forall i, j | 0 <= i < j < |s| :: cmp(s[i], s[j]) <= 0.0
  }

  /** The elements of `s` that compare equal to `y`, in their order in `s`. */
  ghost function Ties<T>(s: seq<T>, cmp: (T, T) -> real, y: T): seq<T> {
    if s == [] then [] else (if cmp(s[0], y) == 0.0 then [s[0]] else []) + Ties(s[1..], cmp, y)
  }

  lemma ConsistentOnPart<T>(cmp: (T, T) -> real, s: seq<T>, u: seq<T>)
    requires Consistent(cmp, s)
    requires forall a | a in u :: a in s
    ensures Consistent(cmp, u)
  {
  }

  lemma SortedCons<T>(h: T, u: seq<T>, cmp: (T, T) -> real)
    requires Sorted(u, cmp)
    requires forall y | y in u :: cmp(h, y) <= 0.0
    ensures Sorted([h] + u, cmp)
  {
    var r := [h] + u;
    forall i, j | 0 <= i < j < |r|
      ensures cmp(r[i], r[j]) <= 0.0
    {
      if i == 0 {
        assert r[j] == u[j - 1];
      } else {
        assert r[i] == u[i - 1] && r[j] == u[j - 1];
      }
    }
  }

  lemma {:induction false} InsertSorted<T>(x: T, t: seq<T>, cmp: (T, T) -> real)
    requires Consistent(cmp, [x] + t)
    requires Sorted(t, cmp)
    ensures Sorted(Insert(x, t, cmp), cmp)
  {
    if t == [] {
    } else if cmp(x, t[0]) <= 0.0 {
      forall y | y in t
        ensures cmp(x, y) <= 0.0
      {
        var k :| 0 <= k < |t| && t[k] == y;
        if k > 0 {
          assert cmp(t[0], t[k]) <= 0.0;
          assert t[0] in [x] + t && y in [x] + t && x in [x] + t;
        }
      }
      SortedCons(x, t, cmp);
    } else {
      var rest := t[1..];
      assert Sorted(rest, cmp);
      ConsistentOnPart(cmp, [x] + t, [x] + rest);
      InsertSorted(x, rest, cmp);
      var u := Insert(x, rest, cmp);
      forall y | y in u
        ensures cmp(t[0], y) <= 0.0
      {
        assert y in multiset(u);
        if y == x {
          assert x in [x] + t && t[0] in [x] + t;
        } else {
          assert y in multiset(rest);
          var k :| 0 <= k < |rest| && rest[k] == y;
          assert t[k + 1] == y;
        }
      }
      SortedCons(t[0], u, cmp);
    }
  }

  /** With a consistent comparator the output is in comparator order. */
  lemma {:induction false} SortSorted<T>(s: seq<T>, cmp: (T, T) -> real)
    requires Consistent(cmp, s)
    ensures Sorted(Sort(s, cmp), cmp)
  {
    if s != [] {
      ConsistentOnPart(cmp, s, s[1..]);
      SortSorted(s[1..], cmp);
      var t := Sort(s[1..], cmp);
      forall a | a in [s[0]] + t
        ensures a in s
      {
        if a != s[0] {
          assert a in multiset(t);
          assert a in multiset(s[1..]);
        }
      }
      ConsistentOnPart(cmp, s, [s[0]] + t);
      InsertSorted(s[0], t, cmp);
    }
  }

  lemma TiesCons<T>(h: T, u: seq<T>, cmp: (T, T) -> real, y: T)
    ensures Ties([h] + u, cmp, y) == (if cmp(h, y) == 0.0 then [h] else []) + Ties(u, cmp, y)
  {
    assert ([h] + u)[0] == h && ([h] + u)[1..] == u;
  }

  /** Inserting `x` puts it ahead of every element that ties with it. */
  lemma {:induction false} InsertTies<T>(x: T, t: seq<T>, cmp: (T, T) -> real, y: T)
    requires Consistent(cmp, [x, y] + t)
    ensures Ties(Insert(x, t, cmp), cmp, y) == (if cmp(x, y) == 0.0 then [x] else []) + Ties(t, cmp, y)
  {
    var xs := if cmp(x, y) == 0.0 then [x] else [];
    if t == [] {
      assert Insert(x, t, cmp) == [x] + t;
      TiesCons(x, t, cmp, y);
    } else if cmp(x, t[0]) <= 0.0 {
      assert Insert(x, t, cmp) == [x] + t;
      TiesCons(x, t, cmp, y);
    } else {
      var rest := t[1..];
      ConsistentOnPart(cmp, [x, y] + t, [x, y] + rest);
      InsertTies(x, rest, cmp, y);
      var u := Insert(x, rest, cmp);
      assert Insert(x, t, cmp) == [t[0]] + u;
      var ts := if cmp(t[0], y) == 0.0 then [t[0]] else [];
      TiesCons(t[0], u, cmp, y);
      assert Ties(Insert(x, t, cmp), cmp, y) == ts + (xs + Ties(rest, cmp, y));
      TiesCons(t[0], rest, cmp, y);
      assert [t[0]] + rest == t;
      assert Ties(t, cmp, y) == ts + Ties(rest, cmp, y);
      if cmp(x, y) == 0.0 && cmp(t[0], y) == 0.0 {
        assert false;
      }
      assert xs == [] || ts == [];
    }
  }

  /**
   * Stability: the elements that tie with `y` come out in the order they went in.
   */
  lemma {:induction false} SortStable<T>(s: seq<T>, cmp: (T, T) -> real, y: T)
    requires Consistent(cmp, s + [y])
    ensures Ties(Sort(s, cmp), cmp, y) == Ties(s, cmp, y)
  {
    if s != [] {
      ConsistentOnPart(cmp, s + [y], s[1..] + [y]);
      SortStable(s[1..], cmp, y);
      var t := Sort(s[1..], cmp);
      forall a | a in [s[0], y] + t
        ensures a in s + [y]
      {
        if a != s[0] && a != y {
          assert a in multiset(t);
          assert a in multiset(s[1..]);
        }
      }
      ConsistentOnPart(cmp, s + [y], [s[0], y] + t);
      InsertTies(s[0], t, cmp, y);
    }
  }

  /** Sorting an already sorted sequence changes nothing, for any comparator. */
  lemma {:induction false} SortOfSorted<T>(s: seq<T>, cmp: (T, T) -> real)
    requires Sorted(s, cmp)
    ensures Sort(s, cmp) == s
  {
    if s != [] {
      var rest := s[1..];
      assert Sorted(rest, cmp) by {
        forall i, j | 0 <= i < j < |rest|
          ensures cmp(rest[i], rest[j]) <= 0.0
        {
          assert rest[i] == s[i + 1] && rest[j] == s[j + 1];
        }
      }
      SortOfSorted(rest, cmp);
      if rest != [] {
        assert cmp(s[0], rest[0]) <= 0.0 by { assert rest[0] == s[1]; }
      }
      assert Insert(s[0], rest, cmp) == [s[0]] + rest;
      assert [s[0]] + rest == s;
    }
  }

  /** Sorting twice gives the order sorting once gave. */
  lemma SortIdempotent<T>(s: seq<T>, cmp: (T, T) -> real)
    requires Consistent(cmp, s)
    ensures Sort(Sort(s, cmp), cmp) == Sort(s, cmp)
  {
    SortSorted(s, cmp);
    SortOfSorted(Sort(s, cmp), cmp);
  }
}
