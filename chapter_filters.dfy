/**
 * The chapter list's search, status filter and sort, with the hook's state
 * (src/components/chapters/hooks/useChapterFilters.ts).
 */
module ChapterFilters {
  import opened Wrappers
  import opened Js
  import opened Text
  import opened Seqs
  import opened Sorting
  import opened Filters

  const SearchFields: seq<string> := ["name_chapter", "summary"]
  const ChapterSortFields := SortFields(Some("date_created"), Some("name_chapter"), Some("status"), Some("word_count"))

  /** A chapter passes the search box and the status filter. */
  predicate Selected(searchText: string, statusFilter: string, chapter: Record) {
    (IsBlank(searchText) || MatchesSearch(chapter, Lower(searchText), SearchFields))
    && (statusFilter == "" || ToStr(Get(chapter, "status")) == statusFilter)
  }

  function SelectedTest(searchText: string, statusFilter: string): Record -> bool {
    chapter => Selected(searchText, statusFilter, chapter)
  }

  /**
   * The memoised pipeline: a missing list reads as empty, then the search over
   * name and summary, the status filter and the sort.
   */
  function FilterAndSort(chapters: Option<seq<Record>>, searchText: string, statusFilter: string,
                         sortOption: SortOption, timeOf: string -> int): (r: seq<Record>)
    ensures chapters == None ==> r == []
    ensures multiset(r) <= multiset(chapters.GetOr([]))
  {
    var input := chapters.GetOr([]);
    var searched := FilterBySearch(input, searchText, SearchFields);
    var filtered := FilterByField(searched, "status", Some(statusFilter));
    SubseqMultiset(filtered, searched);
    SubseqMultiset(searched, input);
    SortItems(filtered, sortOption, ChapterSortFields, timeOf)
  }

  /** Every chapter shown passes the search box and the status filter. */
  lemma ShownChaptersAreSelected(chapters: Option<seq<Record>>, searchText: string, statusFilter: string,
                                 sortOption: SortOption, timeOf: string -> int)
    ensures var r := FilterAndSort(chapters, searchText, statusFilter, sortOption, timeOf);
      forall i :: 0 <= i < |r| ==> Selected(searchText, statusFilter, r[i])
  {
    var input := chapters.GetOr([]);
    var filtered := FilterByField(FilterBySearch(input, searchText, SearchFields), "status", Some(statusFilter));
    var sorted := SortItems(filtered, sortOption, ChapterSortFields, timeOf);
    FilteredAreSelected(input, searchText, statusFilter);
    assert multiset(sorted) <= multiset(filtered);
    AllCarryOver(sorted, filtered, SelectedTest(searchText, statusFilter));
  }

  /**
   * Every chapter that passes the search box and the status filter is shown, as
   * often as the list holds it: the result is exactly the selected chapters, reordered.
   */
  lemma ShownAreExactlySelected(chapters: seq<Record>, searchText: string, statusFilter: string,
                                sortOption: SortOption, timeOf: string -> int)
    ensures multiset(FilterAndSort(Some(chapters), searchText, statusFilter, sortOption, timeOf))
         == multiset(Filter(chapters, SelectedTest(searchText, statusFilter)))
  {
    var filtered := FilterByField(FilterBySearch(chapters, searchText, SearchFields), "status", Some(statusFilter));
    var selected := Filter(chapters, SelectedTest(searchText, statusFilter));
    forall x ensures multiset(filtered)[x] == multiset(selected)[x] {
      FilteredCount(chapters, searchText, statusFilter, x);
    }
    assert multiset(filtered) == multiset(selected);
  }

  /** Both filters keep each selected chapter as often as the list holds it, and drop the rest. */
  lemma FilteredCount(chapters: seq<Record>, searchText: string, statusFilter: string, x: Record)
    ensures var filtered := FilterByField(FilterBySearch(chapters, searchText, SearchFields), "status", Some(statusFilter));
      multiset(filtered)[x] == multiset(Filter(chapters, SelectedTest(searchText, statusFilter)))[x]
  {
    var test := SelectedTest(searchText, statusFilter);
    var searched := FilterBySearch(chapters, searchText, SearchFields);
    var filtered := FilterByField(searched, "status", Some(statusFilter));
    FilterCount(chapters, test, x);
    if Selected(searchText, statusFilter, x) {
      assert multiset(searched)[x] == multiset(chapters)[x];
      assert multiset(filtered)[x] == multiset(searched)[x];
    } else {
      FilteredAreSelected(chapters, searchText, statusFilter);
    }
  }

  /** The search box's half of `Selected`, as a filter predicate. */
  function SearchPart(searchText: string): Record -> bool {
    chapter => IsBlank(searchText) || MatchesSearch(chapter, Lower(searchText), SearchFields)
  }

  /** Before the sort, every chapter left passes both filters. */
  lemma FilteredAreSelected(input: seq<Record>, searchText: string, statusFilter: string)
    ensures var filtered := FilterByField(FilterBySearch(input, searchText, SearchFields), "status", Some(statusFilter));
      forall i :: 0 <= i < |filtered| ==> SelectedTest(searchText, statusFilter)(filtered[i])
  {
    var searched := FilterBySearch(input, searchText, SearchFields);
    var filtered := FilterByField(searched, "status", Some(statusFilter));
    assert forall i :: 0 <= i < |searched| ==> SearchPart(searchText)(searched[i]);
    SubseqMultiset(filtered, searched);
    AllCarryOver(filtered, searched, SearchPart(searchText));
    forall i | 0 <= i < |filtered| ensures SelectedTest(searchText, statusFilter)(filtered[i]) {
      assert SearchPart(searchText)(filtered[i]);
    }
  }

  /** The shown chapters are in the order of the chosen sort mode. */
  lemma ShownChaptersAreSorted(chapters: Option<seq<Record>>, searchText: string, statusFilter: string,
                               sortOption: SortOption, timeOf: string -> int)
    ensures Sorted(FilterAndSort(chapters, searchText, statusFilter, sortOption, timeOf),
                   Order(sortOption, FieldFor(sortOption, ChapterSortFields).value, timeOf))
  {
    assert FieldFor(sortOption, ChapterSortFields).Some?;
  }

  /** The result is never longer than the chapter list. */
  lemma FilterAndSortShorter(chapters: Option<seq<Record>>, searchText: string, statusFilter: string,
                             sortOption: SortOption, timeOf: string -> int)
    ensures |FilterAndSort(chapters, searchText, statusFilter, sortOption, timeOf)| <= |chapters.GetOr([])|
  {
    var r := FilterAndSort(chapters, searchText, statusFilter, sortOption, timeOf);
    assert |multiset(r)| <= |multiset(chapters.GetOr([]))|;
  }

  /** Nothing typed and no status chosen: every chapter comes back, only reordered. */
  lemma NoFilterKeepsAll(chapters: seq<Record>, sortOption: SortOption, timeOf: string -> int)
    ensures multiset(FilterAndSort(Some(chapters), "", "", sortOption, timeOf)) == multiset(chapters)
  {
    assert FilterBySearch(chapters, "", SearchFields) == chapters;
    assert FilterByField(chapters, "status", Some("")) == chapters;
  }

  /** Which chapters survive does not depend on the sort mode. */
  lemma SortModeKeepsSelection(chapters: Option<seq<Record>>, searchText: string, statusFilter: string,
                               a: SortOption, b: SortOption, timeOf: string -> int)
    ensures multiset(FilterAndSort(chapters, searchText, statusFilter, a, timeOf))
         == multiset(FilterAndSort(chapters, searchText, statusFilter, b, timeOf))
  {
  }

  /** The hook's state: what is typed in the search box, the status chosen and the sort mode. */
  class FilterState {
    var searchText: string
    var statusFilter: string
    var sortOption: SortOption

    /** A fresh list shows everything, newest first. */
    constructor ()
      ensures searchText == "" && statusFilter == "" && sortOption == Recent
    {
      searchText := "";
      statusFilter := "";
      sortOption := Recent;
    }

    method SetSearchText(text: string)
      modifies this
      ensures searchText == text && statusFilter == old(statusFilter) && sortOption == old(sortOption)
    {
      searchText := text;
    }

    method SetStatusFilter(status: string)
      modifies this
      ensures statusFilter == status && searchText == old(searchText) && sortOption == old(sortOption)
    {
      statusFilter := status;
    }

    method SetSortOption(option: SortOption)
      modifies this
      ensures sortOption == option && searchText == old(searchText) && statusFilter == old(statusFilter)
    {
      sortOption := option;
    }

    /** `filteredAndSortedChapters` for the current state. */
    function Visible(chapters: Option<seq<Record>>, timeOf: string -> int): seq<Record>
      reads this
    {
      FilterAndSort(chapters, searchText, statusFilter, sortOption, timeOf)
    }
  }

  /** With the initial state the list is every chapter, newest first. */
  method InitialView(chapters: seq<Record>, timeOf: string -> int) returns (r: seq<Record>)
    ensures multiset(r) == multiset(chapters)
    ensures forall i, j :: 0 <= i < j < |r| ==>
      DateKey(r[j], "date_created", timeOf) <= DateKey(r[i], "date_created", timeOf)
  {
    var state := new FilterState();
    r := state.Visible(Some(chapters), timeOf);
    RecentNewestFirst(r, "date_created", timeOf);
    assert r == SortItems(FilterByField(FilterBySearch(chapters, "", SearchFields), "status", Some("")), Recent, ChapterSortFields, timeOf);
    assert FilterBySearch(chapters, "", SearchFields) == chapters;
    forall i, j | 0 <= i < j < |r|
      ensures DateKey(r[j], "date_created", timeOf) <= DateKey(r[i], "date_created", timeOf)
    {
      assert Order(Recent, "date_created", timeOf)(r[i], r[j]);
    }
  }
}
