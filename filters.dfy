/**
 * Search, field filter and six-mode sort over in-memory records
 * (src/utils/filters.ts). Items are records whose fields are read by name at run time.
 */
module Filters {
  import opened Wrappers
  import opened Js
  import opened Text
  import opened Seqs
  import opened Sorting

  // ---------------------------------------------------------------- search

  /** The field holds a truthy value whose lower-cased string contains `needle`. */
  predicate FieldMatches(item: Record, field: string, needle: string) {
    Truthy(Get(item, field)) && Contains(Lower(ToStr(Get(item, field))), needle)
  }

  /** Some listed field of `item` matches `needle` (`searchFields.some(...)`). */
  predicate MatchesSearch(item: Record, needle: string, fields: seq<string>) {
    exists i :: 0 <= i < |fields| && FieldMatches(item, fields[i], needle)
  }

  function SearchTest(needle: string, fields: seq<string>): Record -> bool {
    item => MatchesSearch(item, needle, fields)
  }

  /**
   * `filterBySearch`: blank search text keeps every item; otherwise the items
   * with a listed field containing the lower-cased (untrimmed) search text.
   */
  function FilterBySearch(items: seq<Record>, searchText: string, fields: seq<string>): (r: seq<Record>)
    ensures IsBlank(searchText) ==> r == items
    ensures IsSubseq(r, items)
    ensures !IsBlank(searchText) ==>
      forall i :: 0 <= i < |r| ==> MatchesSearch(r[i], Lower(searchText), fields)
    ensures !IsBlank(searchText) ==>
      forall x :: MatchesSearch(x, Lower(searchText), fields) ==> multiset(r)[x] == multiset(items)[x]
  {
    if Trim(searchText) == "" then
      SubseqReflexive(items);
      items
    else
      SearchMatches(items, Lower(searchText), fields)
  }

  /** The items with a listed field containing `needle`, in order. */
  function SearchMatches(items: seq<Record>, needle: string, fields: seq<string>): (r: seq<Record>)
    ensures IsSubseq(r, items)
    ensures forall i :: 0 <= i < |r| ==> MatchesSearch(r[i], needle, fields)
    ensures forall x :: MatchesSearch(x, needle, fields) ==> multiset(r)[x] == multiset(items)[x]
  {
    var test := SearchTest(needle, fields);
    FilterIsSubseq(items, test);
    FilterKeepsMatching(items, test);
    Filter(items, test)
  }

  // ---------------------------------------------------------------- field filter

  function FieldTest(field: string, value: string): Record -> bool {
    item => ToStr(Get(item, field)) == value
  }

  /**
   * `filterByField`: a null or empty value keeps every item; otherwise the items
   * whose stringified field equals the value exactly.
   */
  function FilterByField(items: seq<Record>, field: string, value: Option<string>): (r: seq<Record>)
    ensures value == None || value == Some("") ==> r == items
    ensures IsSubseq(r, items)
    ensures value.Some? && value.value != "" ==>
      forall i :: 0 <= i < |r| ==> ToStr(Get(r[i], field)) == value.value
    ensures value.Some? && value.value != "" ==>
      forall x :: ToStr(Get(x, field)) == value.value ==> multiset(r)[x] == multiset(items)[x]
  {
    if value == None || value == Some("") then
      SubseqReflexive(items);
      items
    else
      var test := FieldTest(field, value.value);
      FilterIsSubseq(items, test);
      FilterKeepsMatching(items, test);
      Filter(items, test)
  }

  // ---------------------------------------------------------------- sort

  datatype SortOption = Recent | Oldest | Alphabetical | AlphabeticalDesc | Status | WordCount

  /** The optional field names a caller hands to `sortItems`. */
  datatype SortFields = SortFields(
    dateField: Option<string>, textField: Option<string>,
    statusField: Option<string>, numberField: Option<string>)

  /** The field a sort mode reads; `None` means the mode returns the copy unsorted. */
  function FieldFor(option: SortOption, fields: SortFields): Option<string> {
    match option
    case Recent => fields.dateField
    case Oldest => fields.dateField
    case Alphabetical => fields.textField
    case AlphabeticalDesc => fields.textField
    case Status => fields.statusField
    case WordCount => fields.numberField
  }

  /**
   * Time of a date field: 0 when the field is falsy, otherwise the time the
   * platform's date parser gives for its string form (`timeOf`).
   */
  function DateKey(item: Record, field: string, timeOf: string -> int): int {
    var v := Get(item, field);
    if Truthy(v) then timeOf(ToStr(v)) else 0
  }

  /** `String(item[field] || '').toLowerCase()`. */
  function TextKey(item: Record, field: string): string {
    var v := Get(item, field);
    Lower(ToStr(if Truthy(v) then v else Str("")))
  }

  /** Position of a lower-cased status: completed, in progress, draft, then everything else. */
  function StatusRank(status: string): int {
    if status == "completed" then 1
    else if status == "in progress" then 2
    else if status == "draft" then 3
    else 999
  }

  /**
   * `Number(item[field] || 0)`, with a non-numeric string read as 0 where the
   * source gets NaN (word counts are numbers in the rows).
   */
  function NumberKey(item: Record, field: string): int {
    var v := Get(item, field);
    if !Truthy(v) then 0
    else match v
      case Num(n) => n
      case Bool(_) => 1
      case Str(s) => (match StringToNumber(s) case Num(n) => n case _ => 0)
      case _ => 0
  }

  /** The comparator each mode hands to the array sort. */
  function Compare(option: SortOption, field: string, timeOf: string -> int, a: Record, b: Record): int {
    match option
    case Recent => DateKey(b, field, timeOf) - DateKey(a, field, timeOf)
    case Oldest => DateKey(a, field, timeOf) - DateKey(b, field, timeOf)
    case Alphabetical => LexCompare(TextKey(a, field), TextKey(b, field))
    case AlphabeticalDesc => LexCompare(TextKey(b, field), TextKey(a, field))
    case Status => StatusRank(TextKey(a, field)) - StatusRank(TextKey(b, field))
    case WordCount => NumberKey(b, field) - NumberKey(a, field)
  }

  /** `a` may stay ahead of `b`: the comparator does not put `b` first. */
  function Order(option: SortOption, field: string, timeOf: string -> int): (Record, Record) -> bool {
    (a, b) => Compare(option, field, timeOf, a, b) <= 0
  }

  /** Every comparator is a total preorder, so the stable sort is well defined. */
  lemma OrderIsTotalPreorder(option: SortOption, field: string, timeOf: string -> int)
    ensures TotalPreorder(Order(option, field, timeOf))
  {
    var leq := Order(option, field, timeOf);
    if option == Alphabetical || option == AlphabeticalDesc {
      forall a, b ensures leq(a, b) || leq(b, a) {
        LexLeqTotal(TextKey(a, field), TextKey(b, field));
      }
      forall a, b, c | leq(a, b) && leq(b, c) ensures leq(a, c) {
        if option == Alphabetical {
          LexLeqTransitive(TextKey(a, field), TextKey(b, field), TextKey(c, field));
        } else {
          LexLeqTransitive(TextKey(c, field), TextKey(b, field), TextKey(a, field));
        }
      }
    }
  }

  /**
   * `sortItems`: a sorted copy. Without the field the mode needs, the copy is
   * returned in its original order; otherwise a stable sort by the mode's comparator.
   */
  function SortItems(items: seq<Record>, option: SortOption, fields: SortFields, timeOf: string -> int): (r: seq<Record>)
    ensures multiset(r) == multiset(items) && |r| == |items|
    ensures FieldFor(option, fields) == None ==> r == items
    ensures FieldFor(option, fields).Some? ==> Sorted(r, Order(option, FieldFor(option, fields).value, timeOf))
  {
    match FieldFor(option, fields)
    case None => items
    case Some(field) =>
      var leq := Order(option, field, timeOf);
      OrderIsTotalPreorder(option, field, timeOf);
      SortSorted(items, leq);
      assert |multiset(Sort(items, leq))| == |multiset(items)|;
      Sort(items, leq)
  }

  /** Items the comparator cannot tell apart keep their input order. */
  lemma SortItemsStable(items: seq<Record>, option: SortOption, fields: SortFields, timeOf: string -> int, y: Record)
    requires FieldFor(option, fields).Some?
    ensures var leq := Order(option, FieldFor(option, fields).value, timeOf);
      Filter(SortItems(items, option, fields, timeOf), TiesWith(leq, y)) == Filter(items, TiesWith(leq, y))
  {
    var field := FieldFor(option, fields).value;
    OrderIsTotalPreorder(option, field, timeOf);
    SortStable(items, Order(option, field, timeOf), y);
  }

  /** "recent": dates never increase along the result. */
  lemma RecentNewestFirst(items: seq<Record>, field: string, timeOf: string -> int)
    ensures var r := SortItems(items, Recent, SortFields(Some(field), None, None, None), timeOf);
      forall i, j :: 0 <= i < j < |r| ==> DateKey(r[j], field, timeOf) <= DateKey(r[i], field, timeOf)
  {
    var r := SortItems(items, Recent, SortFields(Some(field), None, None, None), timeOf);
    forall i, j | 0 <= i < j < |r| ensures DateKey(r[j], field, timeOf) <= DateKey(r[i], field, timeOf) {
      assert Order(Recent, field, timeOf)(r[i], r[j]);
    }
  }

  /** "oldest": dates never decrease along the result. */
  lemma OldestFirst(items: seq<Record>, field: string, timeOf: string -> int)
    ensures var r := SortItems(items, Oldest, SortFields(Some(field), None, None, None), timeOf);
      forall i, j :: 0 <= i < j < |r| ==> DateKey(r[i], field, timeOf) <= DateKey(r[j], field, timeOf)
  {
    var r := SortItems(items, Oldest, SortFields(Some(field), None, None, None), timeOf);
    forall i, j | 0 <= i < j < |r| ensures DateKey(r[i], field, timeOf) <= DateKey(r[j], field, timeOf) {
      assert Order(Oldest, field, timeOf)(r[i], r[j]);
    }
  }

  /** "alphabetical": lower-cased names ascend in character order. */
  lemma AlphabeticalAscending(items: seq<Record>, field: string, timeOf: string -> int)
    ensures var r := SortItems(items, Alphabetical, SortFields(None, Some(field), None, None), timeOf);
      forall i, j :: 0 <= i < j < |r| ==> LexLeq(TextKey(r[i], field), TextKey(r[j], field))
  {
    var r := SortItems(items, Alphabetical, SortFields(None, Some(field), None, None), timeOf);
    forall i, j | 0 <= i < j < |r| ensures LexLeq(TextKey(r[i], field), TextKey(r[j], field)) {
      assert Order(Alphabetical, field, timeOf)(r[i], r[j]);
    }
  }

  /** "alphabetical-desc": lower-cased names descend. */
  lemma AlphabeticalDescending(items: seq<Record>, field: string, timeOf: string -> int)
    ensures var r := SortItems(items, AlphabeticalDesc, SortFields(None, Some(field), None, None), timeOf);
      forall i, j :: 0 <= i < j < |r| ==> LexLeq(TextKey(r[j], field), TextKey(r[i], field))
  {
    var r := SortItems(items, AlphabeticalDesc, SortFields(None, Some(field), None, None), timeOf);
    forall i, j | 0 <= i < j < |r| ensures LexLeq(TextKey(r[j], field), TextKey(r[i], field)) {
      assert Order(AlphabeticalDesc, field, timeOf)(r[i], r[j]);
    }
  }

  /** "status": completed, then in progress, then draft, then any other status. */
  lemma StatusGrouped(items: seq<Record>, field: string, timeOf: string -> int)
    ensures var r := SortItems(items, Status, SortFields(None, None, Some(field), None), timeOf);
      forall i, j :: 0 <= i < j < |r| ==> StatusRank(TextKey(r[i], field)) <= StatusRank(TextKey(r[j], field))
  {
    var r := SortItems(items, Status, SortFields(None, None, Some(field), None), timeOf);
    forall i, j | 0 <= i < j < |r| ensures StatusRank(TextKey(r[i], field)) <= StatusRank(TextKey(r[j], field)) {
      assert Order(Status, field, timeOf)(r[i], r[j]);
    }
  }

  /** "word-count": counts never increase along the result. */
  lemma WordCountDescending(items: seq<Record>, field: string, timeOf: string -> int)
    ensures var r := SortItems(items, WordCount, SortFields(None, None, None, Some(field)), timeOf);
      forall i, j :: 0 <= i < j < |r| ==> NumberKey(r[j], field) <= NumberKey(r[i], field)
  {
    var r := SortItems(items, WordCount, SortFields(None, None, None, Some(field)), timeOf);
    forall i, j | 0 <= i < j < |r| ensures NumberKey(r[j], field) <= NumberKey(r[i], field) {
      assert Order(WordCount, field, timeOf)(r[i], r[j]);
    }
  }

  /** Two names in reverse order come back ascending, and reversed again for the descending mode. */
  lemma AlphabeticalExample(timeOf: string -> int)
    ensures var a: Record := map["name" := Str("a")];
      var b: Record := map["name" := Str("B")];
      SortItems([b, a], Alphabetical, SortFields(None, Some("name"), None, None), timeOf) == [a, b]
      && SortItems([a, b], AlphabeticalDesc, SortFields(None, Some("name"), None, None), timeOf) == [b, a]
  {
    var a: Record := map["name" := Str("a")];
    var b: Record := map["name" := Str("B")];
    var fields := SortFields(None, Some("name"), None, None);
    var up := Order(Alphabetical, "name", timeOf);
    var down := Order(AlphabeticalDesc, "name", timeOf);
    ExampleKeysCompare(a, b, timeOf);
    SortPairSwaps(b, a, up);
    SortPairSwaps(a, b, down);
    assert FieldFor(Alphabetical, fields) == Some("name") && FieldFor(AlphabeticalDesc, fields) == Some("name");
  }

  /** `"a"` sorts before `"B"` once both are lower-cased. */
  lemma ExampleKeysCompare(a: Record, b: Record, timeOf: string -> int)
    requires a == map["name" := Str("a")] && b == map["name" := Str("B")]
    ensures !Order(Alphabetical, "name", timeOf)(b, a) && !Order(AlphabeticalDesc, "name", timeOf)(a, b)
  {
    assert TextKey(a, "name") == "a";
    assert TextKey(b, "name") == "b" by { assert LowerChar('B') == 'b'; }
    assert LexLeq("a", "b") && !LexLeq("b", "a");
  }

  /** The search text is lower-cased but not trimmed: a leading space is part of the needle. */
  lemma SearchNotTrimmed()
    ensures var item: Record := map["name" := Str("ab")];
      FilterBySearch([item], "a", ["name"]) == [item] && FilterBySearch([item], " a", ["name"]) == []
  {
    SearchExampleKeeps();
    SearchExampleDrops();
  }

  lemma SearchExampleKeeps()
    ensures var item: Record := map["name" := Str("ab")];
      FilterBySearch([item], "a", ["name"]) == [item]
  {
    var item: Record := map["name" := Str("ab")];
    PlainNeedle();
    ExampleMatch(item, true);
    assert [item][1..] == [];
  }

  lemma SearchExampleDrops()
    ensures var item: Record := map["name" := Str("ab")];
      FilterBySearch([item], " a", ["name"]) == []
  {
    var item: Record := map["name" := Str("ab")];
    SpacedNeedle();
    ExampleMatch(item, false);
  }

  /** The example search text `"a"` is non-blank and already lower case. */
  lemma PlainNeedle()
    ensures !IsBlank("a") && Lower("a") == "a"
  {
    assert !IsSpace("a"[0]);
    LowerOfLower("a");
  }

  /** The example search text `" a"` is non-blank and already lower case. */
  lemma SpacedNeedle()
    ensures !IsBlank(" a") && Lower(" a") == " a"
  {
    assert !IsSpace(" a"[1]);
    LowerOfLower(" a");
  }

  lemma ExampleMatch(item: Record, plain: bool)
    requires item == map["name" := Str("ab")]
    ensures MatchesSearch(item, if plain then "a" else " a", ["name"]) == plain
  {
    LowerOfLower("ab");
    if plain {
      assert IsPrefixAt("ab", 0, "a");
      assert FieldMatches(item, ["name"][0], "a");
    } else {
      assert "ab"[0..2][0] == 'a' != ' ' == " a"[0];
      assert !IsPrefixAt("ab", 0, " a");
    }
  }
}
