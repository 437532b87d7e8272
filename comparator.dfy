/** The `sort` step of the table pipeline: the comparator of DataView.tsx:49-64. */
module Comparator {
  import opened FoodEntries
  import Text
  import ArraySort

  /** What `entry[sortField]` holds at run time: a string, a number or `null`. */
  datatype Value = Str(s: string) | Num(n: real) | Null

  function Get(e: FoodEntry, f: Field): (v: Value)
    ensures v.Str? <==> f == Date || f == MealType || f == FoodItem
    ensures v.Null? <==> f == RemainingWeight && e.remainingWeight.None?
  {
    match f
    case Date => Str(e.date)
    case MealType => Str(e.mealType)
    case FoodItem => Str(e.foodItem)
    case InitialWeight => Num(e.initialWeight)
    case RemainingWeight => if e.remainingWeight.Some? then Num(e.remainingWeight.value) else Null
  }

  /**
   * Two strings: `localeCompare`, operands swapped for `desc`. Two numbers: their
   * difference, operands swapped for `desc`. Anything else: 0.
   */
  function Compare(a: FoodEntry, b: FoodEntry, f: Field, d: Direction): (r: real)
    ensures !(Get(a, f).Str? && Get(b, f).Str?) && !(Get(a, f).Num? && Get(b, f).Num?) ==> r == 0.0
    ensures Get(a, f).Str? && Get(b, f).Str? ==> (r == 0.0 <==> Get(a, f).s == Get(b, f).s)
    ensures Get(a, f).Num? && Get(b, f).Num? ==>
      && (r == 0.0 <==> Get(a, f).n == Get(b, f).n)
      && (r < 0.0 <==> if d == Asc then Get(a, f).n < Get(b, f).n else Get(a, f).n > Get(b, f).n)
  {
    var x, y := Get(a, f), Get(b, f);
    if x.Str? && y.Str? then
      Text.LocaleCompareZero(x.s, y.s);
      Text.LocaleCompareZero(y.s, x.s);
      (if d == Asc then Text.LocaleCompare(x.s, y.s) else Text.LocaleCompare(y.s, x.s)) as real
    else if x.Num? && y.Num? then
      if d == Asc then x.n - y.n else y.n - x.n
    else 0.0
  }

  /** The comparator handed to `sort` for the current header state. */
  function Cmp(f: Field, d: Direction): (FoodEntry, FoodEntry) -> real {
    (a, b) => Compare(a, b, f, d)
  }

  /** `desc` is `asc` with the operands swapped. */
  lemma DescSwapsOperands(a: FoodEntry, b: FoodEntry, f: Field)
    ensures Compare(a, b, f, Desc) == Compare(b, a, f, Asc)
  {
  }

  /** `desc` is the negation of `asc`, for strings as well as numbers. */
  lemma DescNegatesAsc(a: FoodEntry, b: FoodEntry, f: Field)
    ensures Compare(a, b, f, Desc) == -Compare(a, b, f, Asc)
  {
    var x, y := Get(a, f), Get(b, f);
    if x.Str? && y.Str? {
      Text.LocaleCompareAntisymmetric(x.s, y.s);
    }
  }

  /**
   * The fallback `return 0` is reached exactly when a `null` remaining weight is
   * involved: the four other columns always hold values of one type.
   */
  lemma MixedOnlyWithNull(a: FoodEntry, b: FoodEntry, f: Field, d: Direction)
    ensures !(Get(a, f).Str? && Get(b, f).Str?) && !(Get(a, f).Num? && Get(b, f).Num?)
        <==> f == RemainingWeight && (a.remainingWeight.None? || b.remainingWeight.None?)
    ensures f == RemainingWeight && (a.remainingWeight.None? || b.remainingWeight.None?) ==> Compare(a, b, f, d) == 0.0
  {
  }

  /** A sign test on the comparator is the order it stands for. */
  lemma CompareSign(a: FoodEntry, b: FoodEntry, f: Field, d: Direction)
    ensures Get(a, f).Num? && Get(b, f).Num? ==>
      (Compare(a, b, f, d) <= 0.0 <==> if d == Asc then Get(a, f).n <= Get(b, f).n else Get(a, f).n >= Get(b, f).n)
    ensures Get(a, f).Str? && Get(b, f).Str? ==>
      (Compare(a, b, f, d) <= 0.0 <==>
        if d == Asc then Text.LocaleCompare(Get(a, f).s, Get(b, f).s) <= 0
        else Text.LocaleCompare(Get(b, f).s, Get(a, f).s) <= 0)
  {
  }

  /** Every entry of `s` holds a string in column `f`, or every entry holds a number. */
  predicate SameKind(s: seq<FoodEntry>, f: Field) {
    (forall e | e in s :: Get(e, f).Str?) || (forall e | e in s :: Get(e, f).Num?)
  }

  lemma SameKindIff(s: seq<FoodEntry>, f: Field)
    ensures SameKind(s, f) <==> f != RemainingWeight || forall e | e in s :: e.remainingWeight.Some?
  {
    if f == RemainingWeight && s != [] {
      assert !Get(s[0], f).Str?;
    }
  }

  /** On values of one kind the comparator is consistent, in either direction. */
  lemma {:induction false} SameKindConsistent(s: seq<FoodEntry>, f: Field, d: Direction)
    requires SameKind(s, f)
    ensures ArraySort.Consistent(Cmp(f, d), s)
  {
    var cmp := Cmp(f, d);
    if forall e | e in s :: Get(e, f).Str? {
      forall a, b | a in s && b in s
        ensures cmp(a, b) < 0.0 <==> cmp(b, a) > 0.0
      {
        Text.LocaleCompareAntisymmetric(Get(a, f).s, Get(b, f).s);
      }
      forall a, b, c | a in s && b in s && c in s && cmp(a, b) <= 0.0 && cmp(b, c) <= 0.0
        ensures cmp(a, c) <= 0.0
      {
        var x, y, z := Get(a, f).s, Get(b, f).s, Get(c, f).s;
        if d == Asc {
          Text.LocaleCompareTransitive(x, y, z);
        } else {
          Text.LocaleCompareTransitive(z, y, x);
        }
      }
    }
  }

  /** On values of one kind the sort puts the entries in comparator order. */
  lemma SameKindSorted(s: seq<FoodEntry>, f: Field, d: Direction)
    requires SameKind(s, f)
    ensures ArraySort.Sorted(ArraySort.Sort(s, Cmp(f, d)), Cmp(f, d))
  {
    SameKindConsistent(s, f, d);
    ArraySort.SortSorted(s, Cmp(f, d));
  }

  /**
   * With a `null` among the remaining weights the comparator is not consistent: a null
   * ties with both 1 and 0 while 0 comes before 1.
   */
  lemma NullBreaksConsistency(d: Direction)
    ensures exists s :: !ArraySort.Consistent(Cmp(RemainingWeight, d), s)
  {
    var one := FoodEntry("1", "2024-01-10", "lunch", "Rice", 2.0, Some(1.0));
    var none := FoodEntry("2", "2024-01-10", "lunch", "Rice", 2.0, None);
    var zero := FoodEntry("3", "2024-01-10", "lunch", "Rice", 2.0, Some(0.0));
    var cmp := Cmp(RemainingWeight, d);
    var s := [one, none, zero];
    if d == Asc {
      assert cmp(one, none) <= 0.0 && cmp(none, zero) <= 0.0 && cmp(one, zero) > 0.0;
    } else {
      assert cmp(zero, none) <= 0.0 && cmp(none, one) <= 0.0 && cmp(zero, one) > 0.0;
    }
    assert !ArraySort.Consistent(cmp, s);
  }

  /**
   * What the table then shows: one `null` between the weights 1 and 0 ties with both, so
   * ascending order leaves 1 ahead of 0.
   */
  lemma OneNullLeavesWeightsUnsorted()
    ensures var one := FoodEntry("1", "2024-01-10", "lunch", "Rice", 2.0, Some(1.0));
      var none := FoodEntry("2", "2024-01-10", "lunch", "Rice", 2.0, None);
      var zero := FoodEntry("3", "2024-01-10", "lunch", "Rice", 2.0, Some(0.0));
      ArraySort.Sort([one, none, zero], Cmp(RemainingWeight, Asc)) == [one, none, zero]
  {
    var one := FoodEntry("1", "2024-01-10", "lunch", "Rice", 2.0, Some(1.0));
    var none := FoodEntry("2", "2024-01-10", "lunch", "Rice", 2.0, None);
    var zero := FoodEntry("3", "2024-01-10", "lunch", "Rice", 2.0, Some(0.0));
    var cmp := Cmp(RemainingWeight, Asc);
    assert [one, none, zero][1..] == [none, zero] && [none, zero][1..] == [zero];
    assert ArraySort.Sort([zero], cmp) == ArraySort.Insert(zero, [], cmp) == [zero];
    assert cmp(none, zero) == 0.0;
    assert ArraySort.Sort([none, zero], cmp) == ArraySort.Insert(none, [zero], cmp) == [none, zero];
    assert cmp(one, none) == 0.0;
    assert ArraySort.Insert(one, [none, zero], cmp) == [one, none, zero];
  }

  /** Column `f` holds numbers in `a` and `b`, and `a`'s is not after `b`'s in direction `d`. */
  predicate NumbersInOrder(a: FoodEntry, b: FoodEntry, f: Field, d: Direction) {
    && Get(a, f).Num? && Get(b, f).Num?
    && if d == Asc then Get(a, f).n <= Get(b, f).n else Get(a, f).n >= Get(b, f).n
  }

  /** Column `f` of `r` holds numbers, non-decreasing for `asc` and non-increasing for `desc`. */
  predicate InNumberOrder(r: seq<FoodEntry>, f: Field, d: Direction) {
    forall i, j | 0 <= i < j < |r| :: NumbersInOrder(r[i], r[j], f, d)
  }

  /** A column of numbers is sorted into number order, and nothing is added or lost. */
  lemma SortedByNumber(s: seq<FoodEntry>, f: Field, d: Direction)
    requires forall e | e in s :: Get(e, f).Num?
    ensures multiset(ArraySort.Sort(s, Cmp(f, d))) == multiset(s)
    ensures InNumberOrder(ArraySort.Sort(s, Cmp(f, d)), f, d)
  {
    var cmp := Cmp(f, d);
    SameKindSorted(s, f, d);
    var r := ArraySort.Sort(s, cmp);
    forall i, j | 0 <= i < j < |r|
      ensures NumbersInOrder(r[i], r[j], f, d)
    {
      assert r[i] in multiset(s) && r[j] in multiset(s);
      assert cmp(r[i], r[j]) <= 0.0;
      CompareSign(r[i], r[j], f, d);
    }
  }

  /**
   * A column of strings comes out in `localeCompare` order for `asc` and in reverse order
   * for `desc`, and the output is a permutation of the input.
   */
  lemma SortedByString(s: seq<FoodEntry>, f: Field, d: Direction)
    requires f == Date || f == MealType || f == FoodItem
    ensures multiset(ArraySort.Sort(s, Cmp(f, d))) == multiset(s)
    ensures var r := ArraySort.Sort(s, Cmp(f, d));
      forall i, j | 0 <= i < j < |r| ::
        if d == Asc then Text.LocaleCompare(Get(r[i], f).s, Get(r[j], f).s) <= 0
        else Text.LocaleCompare(Get(r[i], f).s, Get(r[j], f).s) >= 0
  {
    var cmp := Cmp(f, d);
    SameKindSorted(s, f, d);
    var r := ArraySort.Sort(s, cmp);
    forall i, j | 0 <= i < j < |r|
      ensures if d == Asc then Text.LocaleCompare(Get(r[i], f).s, Get(r[j], f).s) <= 0
        else Text.LocaleCompare(Get(r[i], f).s, Get(r[j], f).s) >= 0
    {
      assert cmp(r[i], r[j]) <= 0.0;
      Text.LocaleCompareAntisymmetric(Get(r[i], f).s, Get(r[j], f).s);
    }
  }

  /** `desc` ties exactly the entries `asc` ties. */
  lemma {:induction false} TiesSameBothWays(s: seq<FoodEntry>, f: Field, y: FoodEntry)
    ensures ArraySort.Ties(s, Cmp(f, Desc), y) == ArraySort.Ties(s, Cmp(f, Asc), y)
  {
    if s != [] {
      DescNegatesAsc(s[0], y, f);
      TiesSameBothWays(s[1..], f, y);
    }
  }

  /**
   * Flipping the direction of a column of one kind keeps each group of tied entries in
   * its input order: both sorts are stable.
   */
  lemma ToggleKeepsTieOrder(s: seq<FoodEntry>, f: Field, y: FoodEntry)
    requires SameKind(s + [y], f)
    ensures ArraySort.Ties(ArraySort.Sort(s, Cmp(f, Desc)), Cmp(f, Desc), y)
         == ArraySort.Ties(ArraySort.Sort(s, Cmp(f, Asc)), Cmp(f, Asc), y)
         == ArraySort.Ties(s, Cmp(f, Asc), y)
  {
    SameKindConsistent(s + [y], f, Asc);
    SameKindConsistent(s + [y], f, Desc);
    ArraySort.SortStable(s, Cmp(f, Asc), y);
    ArraySort.SortStable(s, Cmp(f, Desc), y);
    TiesSameBothWays(s, f, y);
  }

  /** Rice and Bread sorted by food item: Bread first ascending, Rice first descending. */
  lemma RiceAndBread()
    ensures var rice := FoodEntry("1", "2024-01-10", "lunch", "Rice", 2.0, None);
      var bread := FoodEntry("2", "2024-01-11", "lunch", "Bread", 1.0, None);
      ArraySort.Sort([rice, bread], Cmp(FoodItem, Asc)) == [bread, rice] &&
      ArraySort.Sort([rice, bread], Cmp(FoodItem, Desc)) == [rice, bread]
  {
    var rice := FoodEntry("1", "2024-01-10", "lunch", "Rice", 2.0, None);
    var bread := FoodEntry("2", "2024-01-11", "lunch", "Bread", 1.0, None);
    assert Text.LocaleCompare("Rice", "Bread") == 1;
    assert Text.LocaleCompare("Bread", "Rice") == -1;
    var asc, desc := Cmp(FoodItem, Asc), Cmp(FoodItem, Desc);
    assert asc(rice, bread) == 1.0;
    assert desc(rice, bread) == -1.0;
    assert ArraySort.Sort([bread], asc) == ArraySort.Insert(bread, [], asc) == [bread];
    assert ArraySort.Sort([bread], desc) == ArraySort.Insert(bread, [], desc) == [bread];
    assert ArraySort.Insert(rice, [bread], asc) == [bread] + ArraySort.Insert(rice, [], asc) == [bread, rice];
    assert ArraySort.Insert(rice, [bread], desc) == [rice, bread];
    assert [rice, bread][1..] == [bread];
  }
}
