/** The sortable table header: which column sorts the table, and in which direction. */
module SortHeader {
  import opened FoodEntries

  datatype SortState = SortState(field: Field, direction: Direction)

  /** The table first shows the newest date first. */
  const Initial := SortState(Date, Desc)

  function Flip(d: Direction): (r: Direction)
    ensures r != d
  {
    if d == Asc then Desc else Asc
  }

  /** A click on a header: the current column flips direction, another column starts ascending. */
  function Click(s: SortState, f: Field): (r: SortState)
    ensures r.field == f
    ensures f == s.field ==> r.direction != s.direction
    ensures f != s.field ==> r.direction == Asc
  {
    if f == s.field then SortState(f, Flip(s.direction)) else SortState(f, Asc)
  }

  /** The state after a series of clicks, first click first. */
  function Clicks(s: SortState, fs: seq<Field>): SortState
    decreases |fs|
  {
    if fs == [] then s else Clicks(Click(s, fs[0]), fs[1..])
  }

  function Repeat(f: Field, n: nat): (r: seq<Field>)
    ensures |r| == n && forall i | 0 <= i < n :: r[i] == f
  {
    if n == 0 then [] else [f] + Repeat(f, n - 1)
  }

  /** From the initial state the first click, on any column, sorts ascending. */
  lemma FirstClickAscending(f: Field)
    ensures Click(Initial, f) == SortState(f, Asc)
  {
  }

  /** Two clicks on the current column restore the original state. */
  lemma ClickCurrentTwice(s: SortState)
    ensures Click(Click(s, s.field), s.field) == s
  {
  }

  /** `n` clicks on one column: its direction alternates, starting from where it was. */
  lemma {:induction false} RepeatedClicks(s: SortState, f: Field, n: nat)
    ensures Clicks(s, Repeat(f, n)) ==
      if n == 0 then s
      else if f == s.field then SortState(f, if n % 2 == 0 then s.direction else Flip(s.direction))
      else SortState(f, if n % 2 == 1 then Asc else Desc)
    decreases n
  {
    if n > 0 {
      var s' := Click(s, f);
      assert Repeat(f, n)[1..] == Repeat(f, n - 1);
      RepeatedClicks(s', f, n - 1);
    }
  }

  /** After any non-empty series of clicks the table is sorted by the column clicked last. */
  lemma {:induction false} LastClickPicksField(s: SortState, fs: seq<Field>)
    requires fs != []
    ensures Clicks(s, fs).field == fs[|fs| - 1]
    decreases |fs|
  {
    if |fs| > 1 {
      LastClickPicksField(Click(s, fs[0]), fs[1..]);
    }
  }
}
