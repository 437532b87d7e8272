/** The reporting page: its state, the header clicks that change it, and the table it shows. */
module DataView {
  import opened FoodEntries
  import Search
  import Comparator
  import ArraySort
  import SortHeader

  /** The rows of the table: the entries matching the search, sorted as the header says. */
  function Table(entries: seq<FoodEntry>, term: string, st: SortHeader.SortState): (r: seq<FoodEntry>)
    ensures forall e | e in r :: e in entries && Search.Matches(e, term)
  {
    var kept := Search.Filter(entries, term);
    var r := ArraySort.Sort(kept, Comparator.Cmp(st.field, st.direction));
    assert forall e | e in r :: e in multiset(kept);
    r
  }

  /** The table shows every matching entry as often as it was fetched, and nothing else. */
  lemma TableShowsExactlyMatches(entries: seq<FoodEntry>, term: string, st: SortHeader.SortState, e: FoodEntry)
    ensures multiset(Table(entries, term, st))[e] == if Search.Matches(e, term) then multiset(entries)[e] else 0
  {
    Search.FilterKeepsExactlyMatches(entries, term, e);
  }

  /** With an empty search box the table shows all entries. */
  lemma EmptySearchShowsAll(entries: seq<FoodEntry>, st: SortHeader.SortState)
    ensures multiset(Table(entries, "", st)) == multiset(entries)
  {
    Search.FilterEmptyTerm(entries);
  }

  /**
   * When the sort column holds values of one kind for every shown entry (always, except
   * for remaining weights with a `null` among them), the table is in comparator order.
   */
  lemma TableSorted(entries: seq<FoodEntry>, term: string, st: SortHeader.SortState)
    requires Comparator.SameKind(Search.Filter(entries, term), st.field)
    ensures ArraySort.Sorted(Table(entries, term, st), Comparator.Cmp(st.field, st.direction))
  {
    Comparator.SameKindSorted(Search.Filter(entries, term), st.field, st.direction);
  }

  /** The shown entries that tie with `y` in the sort column keep their fetched order. */
  lemma TableKeepsTieOrder(entries: seq<FoodEntry>, term: string, st: SortHeader.SortState, y: FoodEntry)
    requires Comparator.SameKind(Search.Filter(entries, term) + [y], st.field)
    ensures ArraySort.Ties(Table(entries, term, st), Comparator.Cmp(st.field, st.direction), y)
         == ArraySort.Ties(Search.Filter(entries, term), Comparator.Cmp(st.field, st.direction), y)
  {
    var kept := Search.Filter(entries, term);
    Comparator.SameKindConsistent(kept + [y], st.field, st.direction);
    ArraySort.SortStable(kept, Comparator.Cmp(st.field, st.direction), y);
  }

  /** What the table query settled with: rows (`null` when there are none), or an error. */
  datatype FetchOutcome = Loaded(data: Option<seq<FoodEntry>>) | Failed

  class DataViewPage {
    var entries: seq<FoodEntry>
    var loading: bool
    var searchTerm: string
    var sortField: Field
    var sortDirection: Direction

    /** No entries yet, the spinner on, an empty search box, newest dates first. */
    constructor ()
      ensures entries == [] && loading && searchTerm == ""
      ensures SortState() == SortHeader.Initial
    {
      entries := [];
      loading := true;
      searchTerm := "";
      sortField := Date;
      sortDirection := Desc;
    }

    function SortState(): SortHeader.SortState
      reads this
    {
      SortHeader.SortState(sortField, sortDirection)
    }

    function Rows(): seq<FoodEntry>
      reads this
    {
      Table(entries, searchTerm, SortState())
    }

    /**
     * A click on a column header. It changes only the header state, so the table shows
     * the same rows, possibly in another order.
     */
    method HandleSort(field: Field)
      modifies this
      ensures SortState() == SortHeader.Click(old(SortState()), field)
      ensures entries == old(entries) && loading == old(loading) && searchTerm == old(searchTerm)
      ensures multiset(Rows()) == old(multiset(Rows()))
    {
      var next := SortHeader.Click(SortState(), field);
      sortField, sortDirection := next.field, next.direction;
    }

    /** Typing in the search box. */
    method SetSearchTerm(term: string)
      modifies this`searchTerm
      ensures searchTerm == term
      ensures forall e | e in Rows() :: Search.Matches(e, term)
    {
      searchTerm := term;
    }

    /**
     * The end of the initial load: rows replace the entries (`null` counts as none), an
     * error keeps them, and the spinner goes off either way.
     */
    method SettleFetch(outcome: FetchOutcome)
      modifies this`entries, this`loading
      ensures !loading
      ensures entries == match outcome
        case Loaded(Some(data)) => data
        case Loaded(None) => []
        case Failed => old(entries)
      ensures SortState() == old(SortState()) && searchTerm == old(searchTerm)
    {
      match outcome {
        case Loaded(Some(data)) => entries := data;
        case Loaded(None) => entries := [];
        case Failed =>
      }
      loading := false;
    }
  }
}
