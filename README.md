# Scriptoria client-side data logic, in Dafny

Scriptoria is a React single-page application for writers: manuscripts,
chapters, characters and notes are stored in a hosted backend and edited in
browser forms. This project models the part of the client that decides what
the user sees and what is sent to the backend, and proves properties of it:

- **List processing** (`filters.dfy`, `sorting.dfy`, `seqs.dfy`,
  `chapter_filters.dfy`, `chapter_grouping.dfy`, `genre_select.dfy`): the
  case-insensitive search, the exact field filter and the six-mode stable
  sort; the chapter list's search → status filter → sort pipeline and its
  state; the grouping of chapters by manuscript with its colour rule; the
  three option groups of the genre picker.
- **Validation and normalisation** (`validations.dfy`, `form_helpers.dfy`,
  `repository.dfy`, `text.dfy`, `js.dfy`): the field validators, input
  normalisation, optional-field cleaning, word-count clamping, the error-map
  update, and the record sanitiser run before every insert or update.
- **Form state machines** (`form_common.dfy`, `chapter_form.dfy`,
  `note_form.dfy`, `character_form.dfy`, `manuscript_form.dfy`): each editor
  hook is a class holding the form data, the field-error map, the touched set,
  the submit flag and the banner error; its handlers are methods that update
  those fields. The authentication lookup and the repository call are inputs
  (`AuthResult`, `SaveResult`), and a submit returns the request it would send
  (`Request`) and how it ended (`Outcome`).
- **Lookups and aggregates** (`status_colors.dfy`, `formatters.dfy`,
  `manuscript_formatters.dfy`, `return_navigation.dfy`,
  `dashboard_stats.dfy`): the status colour tables, initials and word-count
  labels, the `?from=` return route and the dashboard counters.

JavaScript values are the datatype `Js.Value` (`Undef`, `Null`, `Bool`,
`Num` on integers, `NaN`, `Str`), and a row or payload object is a
`map<string, Value>` in which a missing key reads as `Undef`. Strings are
sequences of Unicode characters (`seq<char>`, one element per scalar value,
where JavaScript counts UTF-16 code units); letter case follows the ASCII
rules, and white space is ECMAScript's WhiteSpace and LineTerminator set
(`Text.IsSpace`).

## Model

| member | source | states |
|---|---|---|
| Filters.FilterBySearch | src/utils/filters.ts:14-28 | blank search text returns the list unchanged; otherwise the result is an order-preserving sub-list holding exactly the items (with their multiplicity) for which some listed field's lower-cased string contains the lower-cased search text |
| Filters.SearchMatches | src/utils/filters.ts:21-27 | the items kept by the `some` test are an ordered sub-list, each one matches and no matching item is dropped |
| Filters.FilterByField | src/utils/filters.ts:33-40 | a null or empty value keeps every item; otherwise exactly the items whose field, stringified, equals the value, in order |
| Filters.OrderIsTotalPreorder | src/utils/filters.ts:56-119 | each of the six comparators is total and transitive, so the stable array sort is well defined |
| Filters.SortItems | src/utils/filters.ts:45-123 | the result is a permutation of the input; without the field a mode needs the copy is returned unsorted; otherwise it is ordered by that mode's comparator |
| Filters.SortItemsStable | src/utils/filters.ts:53-119 | items the comparator ranks equal keep their input order (the platform sort is stable) |
| Filters.RecentNewestFirst | src/utils/filters.ts:56-64 | "recent": the date key never increases along the result, a missing date counting as time 0 |
| Filters.OldestFirst | src/utils/filters.ts:66-74 | "oldest": the date key never decreases along the result |
| Filters.AlphabeticalAscending | src/utils/filters.ts:76-84 | "alphabetical": lower-cased names ascend |
| Filters.AlphabeticalDescending | src/utils/filters.ts:86-94 | "alphabetical-desc": lower-cased names descend |
| Filters.StatusGrouped | src/utils/filters.ts:96-109 | "status": completed, then in progress, then draft, then every other status (rank 999) |
| Filters.WordCountDescending | src/utils/filters.ts:111-119 | "word-count": counts never increase along the result, a missing count reading as 0 |
| Filters.AlphabeticalExample | src/utils/filters.ts:76-94 | `"B"` and `"a"` come out as `a, B` ascending and `B, a` descending, because case is ignored |
| Filters.ExampleKeysCompare | src/utils/filters.ts:78-93 | with names `"a"` and `"B"` neither comparator puts them the wrong way round |
| Filters.SearchNotTrimmed | src/utils/filters.ts:19-22 | the search text is checked for blankness after trimming but searched for untrimmed: `"a"` finds `"ab"`, `" a"` does not |
| Filters.SearchExampleKeeps | src/utils/filters.ts:19-27 | search text `"a"` keeps an item named `"ab"` |
| Filters.SearchExampleDrops | src/utils/filters.ts:19-27 | search text `" a"` drops an item named `"ab"` |
| Filters.PlainNeedle | src/utils/filters.ts:19-21 | `"a"` is not blank and lower-cases to itself |
| Filters.SpacedNeedle | src/utils/filters.ts:19-21 | `" a"` is not blank and lower-cases to itself |
| Filters.ExampleMatch | src/utils/filters.ts:22-27 | an item named `"ab"` matches needle `"a"` and not needle `" a"` |
| Validations.ValidateRequired | src/utils/validations.ts:13-21 | passes exactly when the value is a string that is not blank after trimming; otherwise "`<field>` is required" |
| Validations.ValidateMinLength | src/utils/validations.ts:26-39 | fails exactly when the value is a non-empty string shorter than the minimum, with the "must be at least N characters" message |
| Validations.ValidateMaxLength | src/utils/validations.ts:44-57 | fails exactly when the value is a non-empty string longer than the maximum, with the "must be at most N characters" message |
| Validations.ValidatePositiveNumber | src/utils/validations.ts:62-74 | passes exactly for null, undefined and numbers at or above 0; NaN and negatives fail with "must be a positive number" |
| Validations.ValidateNumberRange | src/utils/validations.ts:79-93 | passes exactly for null, undefined and numbers inside the inclusive range; otherwise "must be between MIN and MAX" |
| Validations.ValidateMultiple | src/utils/validations.ts:113-124 | valid exactly when every validator passes; otherwise the result of the first validator that fails |
| Validations.RangeFromZeroIsPositive | src/utils/validations.ts:62-93 | a value accepted by a range starting at 0 is also accepted by the non-negative check |
| Validations.RequiredThenLength | src/utils/validations.ts:13-57 | once a value is required-valid, the length checks are exactly the bounds on its length |
| Validations.MultipleFirstFailureWins | src/utils/validations.ts:113-124 | validators added after a failing one never change the reported failure |
| Validations.MultipleOfTwo | src/utils/validations.ts:113-124 | two chained validators give the first one's failure, else the second one's result |
| FormHelpers.NormalizeInputValue | src/utils/formHelpers.ts:8-31 | number inputs store the parsed number, or null for empty or non-numeric text; file inputs store the first file or null; other inputs store the raw text; selects store null for `''` and the text otherwise; textareas store the trimmed text, or null when blank; each case fixes the value and its kind |
| FormHelpers.NumberInputRoundTrip | src/utils/formHelpers.ts:14-17 | a number input showing the decimal form of `n` stores `n` |
| FormHelpers.TextAreaNormalisedIsStable | src/utils/formHelpers.ts:29-30 | normalising an already normalised textarea value changes nothing |
| FormHelpers.CleanOptionalField | src/utils/formHelpers.ts:36-40 | the trimmed text for a non-blank string, and nothing for blank strings and non-strings |
| FormHelpers.CleanOptionalFieldIdempotent | src/utils/formHelpers.ts:36-40 | cleaning never yields `''`, and cleaning a cleaned value gives it back |
| FormHelpers.ValidateWordCount | src/utils/formHelpers.ts:45-55 | a result is never negative; null, undefined, NaN and non-string non-numbers give none; numbers are clamped at 0; a string gives none exactly when `parseInt` finds no digits, and otherwise the parsed integer clamped at 0 |
| FormHelpers.ValidateWordCountOfText | src/utils/formHelpers.ts:50-53 | the decimal text of `n` reads back as `n`, or 0 when `n` is negative |
| FormHelpers.ValidateWordCountIdempotent | src/utils/formHelpers.ts:45-55 | a validated count passes through validation unchanged |
| FormHelpers.ValidateWordCountWithDefault | src/utils/formHelpers.ts:60-63 | the validated count, or 0 when there is none; never negative |
| FormHelpers.RemoveFieldError | src/utils/formHelpers.ts:68-75 | the field's entry is gone and every other entry is kept unchanged |
| FormHelpers.RemoveFieldErrorIdempotent | src/utils/formHelpers.ts:68-75 | removing the same field twice is removing it once |
| Repository.CleanInsertData | src/lib/respository/supabaseRepository.ts:7-36 | the loop over the copied record's keys ends with exactly the record that drops `undefined` entries, turns NaN into 0 under count-like keys and drops other NaN entries |
| Repository.CleanedHasNoUndefinedOrNaN | src/lib/respository/supabaseRepository.ts:15-32 | no entry of a cleaned record is `undefined` or NaN |
| Repository.CleanedRepairsNaN | src/lib/respository/supabaseRepository.ts:22-31 | NaN under a key equal to `word_count` or containing `count` or `id_` becomes 0; NaN under any other key is deleted |
| Repository.CleanedKeepsOrdinaryValues | src/lib/respository/supabaseRepository.ts:8-33 | no key is added, and every entry that is neither `undefined` nor NaN is kept unchanged |
| Repository.CountKeys | src/lib/respository/supabaseRepository.ts:25 | `word_count`, `id_manuscript` and `chapter_count` are repaired; `age` is not |
| Repository.CleanedIdempotent | src/lib/respository/supabaseRepository.ts:7-36 | cleaning a cleaned record changes nothing |
| StatusColors.GetStatusColors | src/utils/statusColors.ts:16-49 | always one of the three table entries; the completed entry exactly when the lower-cased status (draft when missing) is `completed`, the in-progress entry exactly when it is `in progress`, the draft entry otherwise |
| StatusColors.MissingOrUnknownIsDraft | src/utils/statusColors.ts:46-49 | a missing status and a status outside the table both get the draft colours |
| StatusColors.CaseInsensitive | src/utils/statusColors.ts:47 | statuses differing only in letter case get the same colours |
| StatusColors.BadgeClasses | src/utils/statusColors.ts:54-56 | one of the three badge class strings |
| StatusColors.GradientClasses | src/utils/statusColors.ts:61-64 | splits on the space into exactly the chosen entry's `from` and `to` classes |
| StatusColors.ProgressColor | src/utils/statusColors.ts:69-71 | one of the three progress colours |
| Formatters.GetInitials | src/utils/formatters.ts:52-59 | at most two upper-case characters: the first characters of the space-separated words, in order, upper-cased |
| Formatters.FirstChars | src/utils/formatters.ts:55-56 | mapping words to their first character and joining gives at most one character per word (an empty word adds nothing) |
| Formatters.FirstCharsOfSplit | src/utils/formatters.ts:53-56 | split-then-first-characters picks exactly the non-space characters that follow a space or the start |
| Formatters.InitialsExamples | src/utils/formatters.ts:52-59 | `""` gives `""` and `"Ada Lovelace"` gives `"AL"` |
| Formatters.ExampleWordStarts | src/utils/formatters.ts:53-56 | the words of `"Ada Lovelace"` start with `A` and `L` |
| Formatters.FormatWordCount | src/utils/formatters.ts:15-18 | "No words yet" for a missing, zero or NaN count; otherwise the locale-formatted count followed by " word" exactly when the count is 1 and " words" otherwise |
| Formatters.WordCountPlural | src/utils/formatters.ts:17 | every non-zero count other than 1, negatives included, is labelled plural |
| Formatters.LegacyStatusColor | src/utils/formatters.ts:48-50 | the deprecated helper returns one of the central table's badge classes |
| ManuscriptFormatters.GetStatusColor | src/components/manuscripts/utils/formatters.ts:17-27 | the map's class string for the lower-cased status, and the purple classes when the map has no entry |
| ManuscriptFormatters.StatusColorTable | src/components/manuscripts/utils/formatters.ts:18-24 | both spellings of in progress are green, completed blue, on hold yellow, draft gray, whatever the letter case |
| ManuscriptFormatters.UnknownIsPurple | src/components/manuscripts/utils/formatters.ts:26 | a status outside the map gets purple, a colour no listed status has |
| ChapterGrouping.DistinctKeys | src/components/chapters/hooks/useChapterGrouping.ts:24-31 | the Map's keys in insertion order: no key twice, and exactly the keys some chapter has |
| ChapterGrouping.GroupChapters | src/components/chapters/hooks/useChapterGrouping.ts:23-35 | the `forEach` loop ends with the keys in first-seen order and, for each key, its chapters in input order |
| ChapterGrouping.KeysAppend | src/components/chapters/hooks/useChapterGrouping.ts:28-30 | one more chapter adds its key at the end only when the key is new |
| ChapterGrouping.GroupsAppend | src/components/chapters/hooks/useChapterGrouping.ts:28-31 | one more chapter is pushed onto its own group, created empty if new, and no other group changes |
| ChapterGrouping.GroupEntriesAppend | src/components/chapters/hooks/useChapterGrouping.ts:28-31 | the same, group by group |
| ChapterGrouping.GroupKeysAppend | src/components/chapters/hooks/useChapterGrouping.ts:28-30 | the groups after one more chapter are the old ones plus the chapter's own |
| ChapterGrouping.GroupAppend | src/components/chapters/hooks/useChapterGrouping.ts:31 | the pushed chapter lands in its own group only |
| ChapterGrouping.NewKeyHasNoChapters | src/components/chapters/hooks/useChapterGrouping.ts:28-29 | a key not yet seen has no chapters so far, so the group created for it starts empty |
| ChapterGrouping.EachChapterInOneGroup | src/components/chapters/hooks/useChapterGrouping.ts:26-32 | a chapter is in a group exactly when that group's key is its `id_manuscript`, or the no-manuscript bucket when that is null |
| ChapterGrouping.GroupKeepsInputOrder | src/components/chapters/hooks/useChapterGrouping.ts:26-32 | each group lists only chapters with its key, in input order |
| ChapterGrouping.SizeSumAppendKey | src/components/chapters/hooks/useChapterGrouping.ts:24-31 | adding a key to the list adds the size of its group |
| ChapterGrouping.SizeSumAppendChapter | src/components/chapters/hooks/useChapterGrouping.ts:26-32 | one more chapter adds one to the size of the listed groups when its key is listed |
| ChapterGrouping.GroupSizesSum | src/components/chapters/hooks/useChapterGrouping.ts:23-35 | the group sizes add up to the number of chapters: no chapter is lost or counted twice |
| ChapterGrouping.JsRemainder | src/components/chapters/hooks/useChapterGrouping.ts:43 | JavaScript's `%`: the ordinary remainder for non-negative ids, a remainder in `(-7, 0]` for negative ones; either way the dividend minus the remainder is a multiple of the divisor, which fixes the value |
| ChapterGrouping.GetGroupColor | src/components/chapters/hooks/useChapterGrouping.ts:10-44 | the eighth colour for the no-manuscript bucket; colour `id % 7` for a non-negative id; for a negative id nothing (`undefined`) unless the id is a multiple of 7, which gets the first colour (`GROUP_COLORS[-0]`) |
| ChapterGrouping.ManuscriptColorIsNotReserved | src/components/chapters/hooks/useChapterGrouping.ts:38-44 | a manuscript with a non-negative id always gets a colour, never the one reserved for chapters without a manuscript |
| ChapterGrouping.ColorRepeatsEverySeven | src/components/chapters/hooks/useChapterGrouping.ts:43 | ids seven apart share a colour |
| ChapterFilters.FilterAndSort | src/components/chapters/hooks/useChapterFilters.ts:10-30 | a missing list shows nothing; the result only holds chapters of the list, each at most as often |
| ChapterFilters.ShownChaptersAreSelected | src/components/chapters/hooks/useChapterFilters.ts:14-17 | every chapter shown matches the search over name and summary and the status filter |
| ChapterFilters.ShownAreExactlySelected | src/components/chapters/hooks/useChapterFilters.ts:10-30 | the chapters shown are exactly the list's chapters that pass the search over name and summary and the status filter, each as often as the list holds it |
| ChapterFilters.FilteredCount | src/components/chapters/hooks/useChapterFilters.ts:14-17 | the two filters keep each selected chapter as often as the list holds it and drop every other |
| ChapterFilters.FilteredAreSelected | src/components/chapters/hooks/useChapterFilters.ts:14-17 | after both filters, before the sort, every chapter left passes both |
| ChapterFilters.ShownChaptersAreSorted | src/components/chapters/hooks/useChapterFilters.ts:20-27 | the shown chapters are in the order of the chosen mode over `date_created`, `name_chapter`, `status` or `word_count` |
| ChapterFilters.FilterAndSortShorter | src/components/chapters/hooks/useChapterFilters.ts:10-30 | never more chapters than the list has |
| ChapterFilters.NoFilterKeepsAll | src/components/chapters/hooks/useChapterFilters.ts:14-17 | empty search text and no status shows every chapter, only reordered |
| ChapterFilters.SortModeKeepsSelection | src/components/chapters/hooks/useChapterFilters.ts:20-27 | the sort mode decides the order only, never which chapters are shown |
| ChapterFilters.FilterState.constructor | src/components/chapters/hooks/useChapterFilters.ts:6-8 | a fresh hook has no search text, no status filter and the `recent` sort |
| ChapterFilters.FilterState.SetSearchText | src/components/chapters/hooks/useChapterFilters.ts:6 | sets the search text, leaving the filter and the sort mode alone |
| ChapterFilters.FilterState.SetStatusFilter | src/components/chapters/hooks/useChapterFilters.ts:7 | sets the status filter, leaving the search text and the sort mode alone |
| ChapterFilters.FilterState.SetSortOption | src/components/chapters/hooks/useChapterFilters.ts:8 | sets the sort mode, leaving the search text and the filter alone |
| ChapterFilters.InitialView | src/components/chapters/hooks/useChapterFilters.ts:6-30 | with a fresh hook every chapter is shown, newest first |
| ReturnNavigation.ReturnToAsWritten | src/hooks/useReturnNavigation.ts:19-30 | the lookup as written: a mapped name gives its route, a name inherited by every plain object gives that inherited member, and a missing, empty or unknown name gives the default |
| ReturnNavigation.PrototypeKeyEscapesDefault | src/hooks/useReturnNavigation.ts:30 | `?from=constructor` yields the inherited constructor instead of a route |
| ReturnNavigation.ReturnTo | src/hooks/useReturnNavigation.ts:15-30 | the intended lookup: a mapped name gives its route, anything else the default, so the result is always the default or one of the four routes |
| ReturnNavigation.RouteTable | src/hooks/useReturnNavigation.ts:15-24 | dashboard, manuscripts, characters and notes map to `/`, `/manuscripts`, `/characters` and `/notes`; unmapped screens get the default, which is `/` when none is given |
| ReturnNavigation.CorrectedAgreesOnRoutes | src/hooks/useReturnNavigation.ts:30 | wherever the lookup as written gives a route, the intended lookup gives the same route |
| DashboardStats.CountOf | src/hooks/useDashboardStats.ts:32-53 | a missing list counts 0, otherwise its length |
| DashboardStats.DashboardStats | src/hooks/useDashboardStats.ts:25-66 | five stats titled Manuscripts, Characters, Chapters, Notes and Total Words; the first four count their lists and the last is the sum of the manuscripts' and chapters' word counts |
| DashboardStats.AddingChapterAddsItsWords | src/hooks/useDashboardStats.ts:26-46 | one more chapter with count `w` raises Total Words by `w` and the chapter count by one |
| DashboardStats.TotalIgnoresCharactersAndNotes | src/hooks/useDashboardStats.ts:25-27 | characters and notes never change Total Words |
| DashboardStats.SumWordsAppend | src/hooks/useDashboardStats.ts:25-26 | the word sum of two lists joined is the sum of their sums |
| GenreSelect.FictionGenres | src/components/manuscripts/components/GenreSelect.tsx:25-28 | an ordered sub-list of genres whose category, lower-cased and trimmed, is `fiction` |
| GenreSelect.NonFictionGenres | src/components/manuscripts/components/GenreSelect.tsx:30-33 | an ordered sub-list of genres whose category is `non-fiction` or `non fiction` |
| GenreSelect.OtherGenres | src/components/manuscripts/components/GenreSelect.tsx:35-38 | an ordered sub-list of genres with a non-empty category that is neither |
| GenreSelect.GroupsPartition | src/components/manuscripts/components/GenreSelect.tsx:25-38 | a genre is in at most one group, and in one exactly when its normalised category is non-empty |
| GenreSelect.GroupsCoverAll | src/components/manuscripts/components/GenreSelect.tsx:25-45 | across the three groups each genre with a non-empty category appears as often as in the list, and any other genre not at all |
| GenreSelect.CategoryExamples | src/components/manuscripts/components/GenreSelect.tsx:26-37 | `" Fiction "` is fiction, `"Non Fiction"` non-fiction, `"Poetry"` other; a blank or missing category is in no group |
| GenreSelect.PaddedFictionKey | src/components/manuscripts/components/GenreSelect.tsx:26 | `" Fiction "` normalises to `fiction` |
| GenreSelect.NonFictionKey | src/components/manuscripts/components/GenreSelect.tsx:31 | `"Non Fiction"` normalises to `non fiction` |
| GenreSelect.PoetryKey | src/components/manuscripts/components/GenreSelect.tsx:36 | `"Poetry"` normalises to `poetry` |
| GenreSelect.BlankKey | src/components/manuscripts/components/GenreSelect.tsx:36 | a blank category normalises to `""`, which is falsy |
| Text.TrimStart | src/utils/formHelpers.ts:29 | drops exactly the leading white space: a suffix that does not start with white space, all of whose dropped characters are white space |
| Text.TrimEnd | src/utils/formHelpers.ts:29 | drops exactly the trailing white space |
| Text.Trim | src/utils/formHelpers.ts:29-38 | empty exactly when the text is blank; otherwise an infix of the text that neither starts nor ends with white space |
| Text.TrimIdempotent | src/utils/formHelpers.ts:29-30 | trimming twice is trimming once |
| Text.TrimUnpadded | src/utils/formHelpers.ts:38 | text with no white space at either end is its own trim |
| Text.TrimPadded | src/utils/validations.ts:14 | one space on each side of unpadded text is trimmed away |
| Text.Lower | src/utils/filters.ts:21-25 | the same length, each character lower-cased |
| Text.Upper | src/utils/formatters.ts:57 | the same length, each character upper-cased |
| Text.LowerIsLower | src/utils/filters.ts:21-25 | a lower-cased string has no upper-case letter, and lower-casing it again changes nothing |
| Text.LowerOfLower | src/utils/filters.ts:21 | a string without upper-case letters lower-cases to itself |
| Text.LowerIgnoresCase | src/utils/statusColors.ts:47 | strings that differ only in letter case lower-case to the same string |
| Text.Split | src/utils/formatters.ts:54 | at least one part, and no part contains the separator |
| Text.JoinSplit | src/utils/formatters.ts:54-56 | joining the parts of a split with the same separator gives back the text |
| Text.LexCompare | src/utils/filters.ts:78-81 | zero exactly for equal strings, negative or zero exactly when the first sorts no later, positive or zero exactly when it sorts no earlier |
| Text.LexLeqReflexive | src/utils/filters.ts:78-93 | every name sorts together with itself |
| Text.LexLeqTotal | src/utils/filters.ts:78-93 | any two names are comparable |
| Text.LexLeqAntisymmetric | src/utils/filters.ts:78-93 | two names that each sort no later than the other are equal |
| Text.LexLeqTransitive | src/utils/filters.ts:78-93 | the name order is transitive |
| Js.NatToString | src/utils/validations.ts:32 | the decimal numeral is a non-empty run of digits |
| Js.DigitPrefix | src/utils/formHelpers.ts:51 | the longest run of digits at the start of the text |
| Js.ParseInt | src/utils/formHelpers.ts:51 | `parseInt(s, 10)` yields a number or NaN |
| Js.StringToNumber | src/utils/formHelpers.ts:15 | `Number(s)` yields a number or NaN |
| Js.NumeralValue | src/utils/formHelpers.ts:15 | trimmed non-blank text yields a number or NaN |
| Js.NatToStringValue | src/utils/formHelpers.ts:51 | the digits of a numeral read back as the number |
| Js.IntToStringShape | src/utils/formHelpers.ts:15 | a numeral has no white space at either end, and a negative one is `-` followed by the digits of the magnitude |
| Js.ParseIntOfIntToString | src/utils/formHelpers.ts:51 | `parseInt(String(n), 10)` is `n` for every integer |
| Js.StringToNumberOfIntToString | src/utils/formHelpers.ts:15 | `Number(String(n))` is `n` for every integer |
| Js.NegativeNumeral | src/utils/formHelpers.ts:15 | `-` followed by digits reads as the negated digits |
| Js.PlainNumeral | src/utils/formHelpers.ts:15 | a run of digits reads as its value |
| Seqs.Filter | src/utils/filters.ts:22 | `filter` keeps only elements that pass, never more than it was given |
| Seqs.SubseqMultiset | src/utils/filters.ts:22 | an ordered sub-list holds no element more often than the list |
| Seqs.FilterIsSubseq | src/utils/filters.ts:22 | `filter` keeps the order of what it keeps |
| Seqs.FilterCount | src/utils/filters.ts:22 | `filter` keeps every occurrence of an element that passes and none of one that does not |
| Seqs.FilterKeepsMatching | src/utils/filters.ts:22 | every occurrence of a passing element is kept |
| Seqs.FilterAppend | src/utils/filters.ts:22 | filtering two lists joined is joining their filtered lists |
| Seqs.FilterKeepsAll | src/utils/filters.ts:38 | when every element passes, `filter` returns the list unchanged |
| Seqs.FilterKeepsNone | src/utils/filters.ts:22 | when no element passes, `filter` returns nothing |
| Seqs.FilterFilter | src/components/chapters/hooks/useChapterFilters.ts:14-17 | filtering twice is filtering once by both tests |
| Seqs.FilterCongruent | src/utils/filters.ts:22 | tests that agree on every element filter alike |
| Seqs.AllCarryOver | src/components/chapters/hooks/useChapterFilters.ts:20-27 | what holds of every element of a list holds of every element of any rearranged part of it |
| Sorting.Insert | src/utils/filters.ts:53 | inserting adds exactly one occurrence of the element |
| Sorting.Sort | src/utils/filters.ts:53 | the sort is a permutation of its input |
| Sorting.SortPairSwaps | src/utils/filters.ts:53 | two elements in the wrong order come back swapped |
| Sorting.InsertSorted | src/utils/filters.ts:53 | inserting into a sorted list keeps it sorted |
| Sorting.SortSorted | src/utils/filters.ts:53 | the sort's result is ordered by the comparator |
| Sorting.InsertStable | src/utils/filters.ts:53 | inserting puts the element after everything it ties with |
| Sorting.InsertStableFront | src/utils/filters.ts:53 | the same when the element goes in front |
| Sorting.SortStable | src/utils/filters.ts:53 | elements that tie keep their input order |
| Sorting.SortOfSorted | src/utils/filters.ts:53 | a list that is already in order is left as it is |
| FormCommon.ErrorsAfter | src/components/chapters/hooks/useChapterForm.ts:92-100 | a valid field loses its entry; an invalid one gets its message (never empty, "Invalid value" when the validator gave none); every other entry is kept |
| FormCommon.ErrorsAfterIdempotent | src/components/chapters/hooks/useChapterForm.ts:92-100 | validating the same field twice with the same outcome is validating it once |
| FormCommon.ErrorsAfterAllEntries | src/components/chapters/hooks/useChapterForm.ts:185-190 | after validating distinct fields in turn, each ends with an entry exactly when it failed, carrying its message, and every other key is untouched |
| FormCommon.ErrorsAfterAllListed | src/components/chapters/hooks/useChapterForm.ts:185-190 | the validated fields end with an entry exactly when they failed |
| FormCommon.ErrorsAfterAllUnlisted | src/components/chapters/hooks/useChapterForm.ts:185-190 | keys that were not validated keep their entry or their absence |
| FormCommon.ErrorsAfterAllSnoc | src/components/chapters/hooks/useChapterForm.ts:186-189 | validating one more field is one more error-map update at the end |
| FormCommon.AllPassMeans | src/components/chapters/hooks/useChapterForm.ts:185-189 | the loop's `isValid` flag stays true exactly when every field passed |
| FormCommon.AllPassSnoc | src/components/chapters/hooks/useChapterForm.ts:188-189 | one more field keeps the flag exactly when that field passes |
| FormCommon.FailureMessage | src/components/chapters/hooks/useChapterForm.ts:231-232 | the thrown `Error`'s message, or the hook's fallback text for anything else |
| FormCommon.Coalesce | src/components/chapters/hooks/useChapterForm.ts:23-31 | `??`: the default exactly when the value is null or undefined |
| FormCommon.Present | src/components/chapters/hooks/useChapterForm.ts:150-156 | a value exactly when it is neither null nor undefined |
| FormCommon.SaveOutcome | src/components/chapters/hooks/useChapterForm.ts:211-234 | a rejection with the catch message exactly when the repository call fails, success exactly when it returns data, and nothing otherwise |
| FormCommon.ErrorOf | src/components/chapters/hooks/useChapterForm.ts:231-233 | the banner shows a message exactly when the submit was rejected, and that message |
| ChapterFormHook.Keys | src/components/chapters/hooks/useChapterForm.ts:16-18 | the `name` of each field, in order |
| ChapterFormHook.With | src/components/chapters/hooks/useChapterForm.ts:111 | `{ ...prev, [name]: val }` sets the named field and keeps every other |
| ChapterFormHook.InputKeepsTyped | src/components/chapters/hooks/useChapterForm.ts:105-111 | whatever the rendered inputs yield, the form data keeps its declared types |
| ChapterFormHook.InitialData | src/components/chapters/hooks/useChapterForm.ts:22-32 | a new chapter starts with an empty title, the current time and every other field null; an edited one with the row's values |
| ChapterFormHook.RuleMeans | src/components/chapters/hooks/useChapterForm.ts:64-90 | the title passes exactly when non-blank and 2 to 200 characters; a word count exactly when absent or not negative; a summary exactly when absent or at most 2000 characters; other fields always; a failure always has a message |
| ChapterFormHook.TitleRuleIsChain | src/components/chapters/hooks/useChapterForm.ts:68-76 | the title rule is the three checks run in turn, stopping at the first failure |
| ChapterFormHook.Results | src/components/chapters/hooks/useChapterForm.ts:185-190 | one validation result per listed field |
| ChapterFormHook.ResultAt | src/components/chapters/hooks/useChapterForm.ts:188 | the loop's i-th step validates the current value of the i-th listed field |
| ChapterFormHook.FieldKeysDistinct | src/components/chapters/hooks/useChapterForm.ts:18 | the three validated field names are distinct |
| ChapterFormHook.ValidationStep | src/components/chapters/hooks/useChapterForm.ts:186-189 | one loop step applies one error-map update for its field |
| ChapterFormHook.SubmitLoopDone | src/components/chapters/hooks/useChapterForm.ts:185-190 | after the loop exactly the failing fields have an error |
| ChapterFormHook.ResultsMean | src/components/chapters/hooks/useChapterForm.ts:185-190 | what each of the three results says about its field |
| ChapterFormHook.SubmittableMeans | src/components/chapters/hooks/useChapterForm.ts:185-195 | a chapter can be submitted exactly when its title, word count and summary meet their rules |
| ChapterFormHook.FreshFormIsSaved | src/components/chapters/hooks/useChapterForm.ts:22-57 | a freshly opened editor, new or editing a row, has no unsaved changes |
| ChapterFormHook.NewChapterTitleIsChange | src/components/chapters/hooks/useChapterForm.ts:40-42 | on a new chapter, a non-blank title alone is an unsaved change |
| ChapterFormHook.NewChapterZeroCountIsNoChange | src/components/chapters/hooks/useChapterForm.ts:44 | on a new chapter, a word count of 0 is not a change |
| ChapterFormHook.ReselectedManuscriptIsChange | src/components/chapters/hooks/useChapterForm.ts:49-56 | re-choosing the row's own manuscript still counts as a change, because the select yields a string and `!==` compares it with the row's number |
| ChapterFormHook.UserValue | src/components/chapters/hooks/useChapterForm.ts:164 | the insert's `id_user` is the signed-in user's id, and undefined without one |
| ChapterFormHook.InsertIsUpdateWithUser | src/components/chapters/hooks/useChapterForm.ts:134-177 | for the same form data an insert payload is the update payload plus the user id |
| ChapterFormHook.PayloadOmitsEmptyValues | src/components/chapters/hooks/useChapterForm.ts:130-177 | a payload never sends null or undefined; texts it sends are trimmed and non-empty; the count is not negative |
| ChapterFormHook.ChapterForm.constructor | src/components/chapters/hooks/useChapterForm.ts:22-37 | the initial form data, no field errors, nothing touched, not submitting, no banner |
| ChapterFormHook.ChapterForm.GuardsNavigation | src/components/chapters/hooks/useChapterForm.ts:59-62 | the leave-page guard is on only while not submitting |
| ChapterFormHook.ChapterForm.ValidateField | src/components/chapters/hooks/useChapterForm.ts:64-103 | returns whether the field's rule passes and records the outcome under the field's name |
| ChapterFormHook.ChapterForm.HandleInputChange | src/components/chapters/hooks/useChapterForm.ts:105-116 | stores the normalised value in its field only, and revalidates it exactly when the field was touched |
| ChapterFormHook.ChapterForm.HandleBlur | src/components/chapters/hooks/useChapterForm.ts:118-124 | marks the field touched and records the validation of its current value |
| ChapterFormHook.ChapterForm.BuildChapterData | src/components/chapters/hooks/useChapterForm.ts:126-178 | builds the update payload, or the insert payload with the user id, from the current form data |
| ChapterFormHook.ChapterForm.ValidateAll | src/components/chapters/hooks/useChapterForm.ts:184-190 | marks the three fields touched, leaves exactly the failing ones with an error, and reports whether all pass |
| ChapterFormHook.ChapterForm.SaveRequest | src/components/chapters/hooks/useChapterForm.ts:205-222 | an update of the edited row by its id, or an insert carrying the user id, with the trimmed title |
| ChapterFormHook.ChapterForm.Send | src/components/chapters/hooks/useChapterForm.ts:197-237 | without a user the submit is rejected with "No user authenticated" and nothing is sent; with one the save request is sent and its failure message, or "Error saving chapter", ends in the banner; the submit flag is cleared either way |
| ChapterFormHook.ChapterForm.Submit | src/components/chapters/hooks/useChapterForm.ts:180-238 | clears the banner and validates, leaving the error map the `ErrorsAfterAll` fold gives (messages included) and the three fields touched; sends nothing and blocks exactly when a field fails; otherwise the outcome and request `Send` states: a rejection without a user, else `IsSaveRequest` (update by the row's id or insert with the user) |
| NoteFormHook.Keys | src/components/notes/hooks/useNoteForm.ts:15-17 | the `name` of each field, in order |
| NoteFormHook.With | src/components/notes/hooks/useNoteForm.ts:111-114 | sets the named field and keeps every other |
| NoteFormHook.RawValue | src/components/notes/hooks/useNoteForm.ts:108-109 | an emptied input stores null; any other text is stored as typed, untrimmed |
| NoteFormHook.InitialData | src/components/notes/hooks/useNoteForm.ts:32-38 | a new note starts with an empty title and every other field null; an edited one with the row's values |
| NoteFormHook.RuleMeans | src/components/notes/hooks/useNoteForm.ts:19-90 | the title passes exactly when it is a non-blank string of 2 to 200 characters; content and category exactly when absent or at most 10000 and 100 characters; priority and manuscript always; a failure always has a message |
| NoteFormHook.Results | src/components/notes/hooks/useNoteForm.ts:157-162 | one validation result per listed field |
| NoteFormHook.ResultAt | src/components/notes/hooks/useNoteForm.ts:160 | the loop's i-th step validates the current value of the i-th listed field |
| NoteFormHook.FieldKeysDistinct | src/components/notes/hooks/useNoteForm.ts:17 | the three validated field names are distinct |
| NoteFormHook.ValidationStep | src/components/notes/hooks/useNoteForm.ts:158-161 | one loop step applies one error-map update for its field |
| NoteFormHook.SubmitLoopDone | src/components/notes/hooks/useNoteForm.ts:157-162 | after the loop exactly the failing fields have an error |
| NoteFormHook.ResultsMean | src/components/notes/hooks/useNoteForm.ts:157-162 | what each of the three results says about its field |
| NoteFormHook.SubmittableMeans | src/components/notes/hooks/useNoteForm.ts:157-168 | a note can be submitted exactly when its title, content and category meet their rules |
| NoteFormHook.UnsavedAsWritten | src/components/notes/hooks/useNoteForm.ts:40-57 | the check as written throws exactly on a new note whose title is no longer a string, i.e. has been cleared |
| NoteFormHook.ClearedTitleThrows | src/components/notes/hooks/useNoteForm.ts:40-48 | typing a title into a new note and clearing it makes the check throw |
| NoteFormHook.TitleText | src/components/notes/hooks/useNoteForm.ts:43 | the title text, with a cleared title read as empty |
| NoteFormHook.UnsavedAgreesWhereDefined | src/components/notes/hooks/useNoteForm.ts:40-57 | wherever the check as written yields a value, the corrected check yields the same |
| NoteFormHook.ClearedTitleIsNoChange | src/components/notes/hooks/useNoteForm.ts:41-48 | with the correction, a new note whose title was typed and cleared has no unsaved changes |
| NoteFormHook.FreshFormIsSaved | src/components/notes/hooks/useNoteForm.ts:32-57 | a freshly opened editor, new or editing a row, has no unsaved changes |
| NoteFormHook.NewNoteTitleIsChange | src/components/notes/hooks/useNoteForm.ts:41-43 | on a new note, a non-blank title alone is an unsaved change |
| NoteFormHook.PayloadOmitsEmptyValues | src/components/notes/hooks/useNoteForm.ts:129-149 | a payload sends no null; the texts it sends are trimmed and non-empty; the priority it sends is text |
| NoteFormHook.BlankContentIsOmitted | src/components/notes/hooks/useNoteForm.ts:132-139 | content that is only white space passes validation but is left out of the payload |
| NoteFormHook.NoteForm.constructor | src/components/notes/hooks/useNoteForm.ts:27-38 | the initial form data, no field errors, nothing touched, not submitting, no banner |
| NoteFormHook.NoteForm.GuardsNavigation | src/components/notes/hooks/useNoteForm.ts:59-62 | the leave-page guard is on only while not submitting |
| NoteFormHook.NoteForm.ValidateField | src/components/notes/hooks/useNoteForm.ts:64-103 | returns whether the field's rule passes and records the outcome under the field's name |
| NoteFormHook.NoteForm.HandleInputChange | src/components/notes/hooks/useNoteForm.ts:105-119 | stores the raw value in its field only, and revalidates it exactly when the field was touched |
| NoteFormHook.NoteForm.HandleBlur | src/components/notes/hooks/useNoteForm.ts:121-127 | marks the field touched and records the validation of its current value |
| NoteFormHook.NoteForm.BuildNoteData | src/components/notes/hooks/useNoteForm.ts:129-149 | builds the payload from the current form data and the given title |
| NoteFormHook.NoteForm.ValidateAll | src/components/notes/hooks/useNoteForm.ts:156-162 | marks the three fields touched, leaves exactly the failing ones with an error, and reports whether all pass |
| NoteFormHook.NoteForm.Send | src/components/notes/hooks/useNoteForm.ts:170-196 | an update of the edited note by its id, or an insert, with the trimmed title; the failure message, or "An error occurred", ends in the banner; the submit flag is cleared |
| NoteFormHook.NoteForm.Submit | src/components/notes/hooks/useNoteForm.ts:151-197 | validates, leaving the error map the `ErrorsAfterAll` fold gives (messages included) and the three fields touched; blocks and sends nothing exactly when a field fails; otherwise `IsSaveRequest` (an update by the edited note's id, or an insert, with the trimmed title) and the save's outcome in the banner; the submit flag is lowered either way |
| CharacterFormHook.Keys | src/components/characters/hooks/useCharacterForm.ts:145 | the `name` of each validated field, in order |
| CharacterFormHook.With | src/components/characters/hooks/useCharacterForm.ts:115 | sets the named field and keeps every other |
| CharacterFormHook.InputKeepsTyped | src/components/characters/hooks/useCharacterForm.ts:109-115 | whatever the rendered inputs yield, the form data keeps its declared types |
| CharacterFormHook.RowDetails | src/components/characters/hooks/useCharacterForm.ts:22-44 | every free-text attribute of the row, null where the row has none |
| CharacterFormHook.InitialData | src/components/characters/hooks/useCharacterForm.ts:17-45 | a new character starts with an empty name, the current time and every other field null; an edited one with the row's values |
| CharacterFormHook.RuleMeans | src/components/characters/hooks/useCharacterForm.ts:72-95 | the name passes exactly when it is a non-blank string of 2 to 100 characters; the age exactly when absent or from 0 to 150; the biography exactly when absent or at most 10000 characters; other fields always; a failure always has a message |
| CharacterFormHook.Results | src/components/characters/hooks/useCharacterForm.ts:145-152 | one validation result per listed field |
| CharacterFormHook.ResultAt | src/components/characters/hooks/useCharacterForm.ts:150 | the loop's i-th step validates the current value of the i-th listed field |
| CharacterFormHook.FieldKeysDistinct | src/components/characters/hooks/useCharacterForm.ts:145 | the three validated field names are distinct |
| CharacterFormHook.ValidationStep | src/components/characters/hooks/useCharacterForm.ts:148-151 | one loop step applies one error-map update for its field |
| CharacterFormHook.SubmitLoopDone | src/components/characters/hooks/useCharacterForm.ts:145-152 | after the loop exactly the failing fields have an error |
| CharacterFormHook.ResultsMean | src/components/characters/hooks/useCharacterForm.ts:145-152 | what each of the three results says about its field |
| CharacterFormHook.SubmittableMeans | src/components/characters/hooks/useCharacterForm.ts:145-157 | a character can be submitted exactly when its name, age and biography meet their rules |
| CharacterFormHook.FreshFormIsSaved | src/components/characters/hooks/useCharacterForm.ts:17-65 | a freshly opened editor, new or editing a row, has no unsaved changes |
| CharacterFormHook.FreshNewFormIsSaved | src/components/characters/hooks/useCharacterForm.ts:54-58 | a fresh new-character editor has no unsaved changes |
| CharacterFormHook.FreshEditFormIsSaved | src/components/characters/hooks/useCharacterForm.ts:60-64 | a fresh editor for a row has no unsaved changes |
| CharacterFormHook.NewCharacterDetailIsNoChange | src/components/characters/hooks/useCharacterForm.ts:54-58 | on a new character, filling in any attribute other than name, biography, role and age is not an unsaved change |
| CharacterFormHook.ClearedRoleIsChange | src/components/characters/hooks/useCharacterForm.ts:54-58 | a role typed into a new character and deleted again still counts as a change, because the text input stores `''`, not null |
| CharacterFormHook.CleanedOverStep | src/components/characters/hooks/useCharacterForm.ts:168-190 | cleaning one more attribute adds it, trimmed, exactly when it has text |
| CharacterFormHook.CleanedOverMeans | src/components/characters/hooks/useCharacterForm.ts:168-221 | the cleaned attributes are exactly the listed ones with text, each trimmed |
| CharacterFormHook.PayloadOmitsEmptyValues | src/components/characters/hooks/useCharacterForm.ts:167-264 | a payload sends only trimmed non-empty texts, a non-negative age and a present manuscript |
| CharacterFormHook.ValidatedAgeIsSent | src/components/characters/hooks/useCharacterForm.ts:128-138 | for a character that passed validation the age is sent exactly as entered, and left out when empty |
| CharacterFormHook.CharacterForm.constructor | src/components/characters/hooks/useCharacterForm.ts:17-50 | the initial form data, no field errors, nothing touched, not submitting, no banner |
| CharacterFormHook.CharacterForm.GuardsNavigation | src/components/characters/hooks/useCharacterForm.ts:67-70 | the leave-page guard is on only while not submitting |
| CharacterFormHook.CharacterForm.ValidateField | src/components/characters/hooks/useCharacterForm.ts:72-107 | returns whether the field's rule passes and records the outcome under the field's name |
| CharacterFormHook.CharacterForm.HandleInputChange | src/components/characters/hooks/useCharacterForm.ts:109-120 | stores the normalised value in its field only, and revalidates it exactly when the field was touched |
| CharacterFormHook.CharacterForm.HandleBlur | src/components/characters/hooks/useCharacterForm.ts:122-126 | marks the field touched and records the validation of its current value |
| CharacterFormHook.CharacterForm.BuildCharacterData | src/components/characters/hooks/useCharacterForm.ts:167-264 | builds the payload the update and the insert both send from the current form data |
| CharacterFormHook.CharacterForm.ValidateAll | src/components/characters/hooks/useCharacterForm.ts:144-152 | marks the three fields touched, leaves exactly the failing ones with an error, and reports whether all pass |
| CharacterFormHook.CharacterForm.Send | src/components/characters/hooks/useCharacterForm.ts:159-279 | without a user the submit is rejected with "No user authenticated" and nothing is sent; with one an update of the edited row by its id or an insert is sent, and its failure message, or "Error saving character", ends in the banner; the flag is cleared |
| CharacterFormHook.CharacterForm.Submit | src/components/characters/hooks/useCharacterForm.ts:140-280 | clears the banner and validates, leaving the error map the `ErrorsAfterAll` fold gives (messages included) and the three fields touched; blocks and sends nothing exactly when a field fails, without raising the submit flag; otherwise a rejection without a user, else `IsSaveRequest` (an update by the edited row's id exactly when editing, or an insert) with the save's outcome in the banner |
| ManuscriptFormHook.With | src/components/manuscripts/hooks/useManuscriptForm.ts:45 | sets the named field and keeps every other |
| ManuscriptFormHook.InputValue | src/components/manuscripts/hooks/useManuscriptForm.ts:31-43 | a number input stores the parsed number or 0 instead of null; a file input its first file name or null; another input its raw text; a select or textarea its trimmed text, or null when that is empty |
| ManuscriptFormHook.NumberInputStoresNumber | src/components/manuscripts/hooks/useManuscriptForm.ts:37-39 | a number input always stores a number: empty or non-numeric text as 0, the decimal text of `n` as `n` |
| ManuscriptFormHook.InputKeepsTyped | src/components/manuscripts/hooks/useManuscriptForm.ts:28-46 | whatever the rendered inputs yield, the form data keeps its declared types |
| ManuscriptFormHook.InitialData | src/components/manuscripts/hooks/useManuscriptForm.ts:13-23 | a new manuscript starts as an untitled Draft of 0 words with the current time and no optional texts; an edited one with the row's values |
| ManuscriptFormHook.UpdateStatus | src/components/manuscripts/hooks/useManuscriptForm.ts:87 | the update's status: the form's status, or Draft when it is null |
| ManuscriptFormHook.InsertStatus | src/components/manuscripts/hooks/useManuscriptForm.ts:105 | the insert's status: the form's status when truthy, or Draft |
| ManuscriptFormHook.StatusDefaultsAgree | src/components/manuscripts/hooks/useManuscriptForm.ts:87-105 | both defaults give a string, and they agree on every status except `''`, which an update sends as it is and an insert replaces by Draft |
| ManuscriptFormHook.PayloadOmitsEmptyValues | src/components/manuscripts/hooks/useManuscriptForm.ts:77-112 | a payload's word count is a non-negative number, never NaN, so the insert's NaN guard never throws; the status is a string; each optional text is trimmed and non-empty |
| ManuscriptFormHook.InsertIsUpdateWithUser | src/components/manuscripts/hooks/useManuscriptForm.ts:83-112 | for the same form data the insert payload is the update payload plus the user and the creation time, with the status differing only for `''` |
| ManuscriptFormHook.NewFormInsertsDraft | src/components/manuscripts/hooks/useManuscriptForm.ts:100-112 | an untouched new form inserts an untitled Draft of 0 words with no optional texts |
| ManuscriptFormHook.ManuscriptForm.constructor | src/components/manuscripts/hooks/useManuscriptForm.ts:13-26 | the initial form data, not submitting, no banner |
| ManuscriptFormHook.ManuscriptForm.HandleInputChange | src/components/manuscripts/hooks/useManuscriptForm.ts:28-46 | stores the element's value in its field only |
| ManuscriptFormHook.ManuscriptForm.BuildPayload | src/components/manuscripts/hooks/useManuscriptForm.ts:77-112 | builds the update payload, or the insert payload with the user and creation time, from the current form data |
| ManuscriptFormHook.ManuscriptForm.Submit | src/components/manuscripts/hooks/useManuscriptForm.ts:66-127 | without a user the submit is rejected with "No user authenticated" and nothing is sent; with one an update of the edited row by its id or an insert is sent, without any validation, and its failure message, or "Error guardando el manuscrito", ends in the banner; the submit flag is cleared |

## Left out

- Backend I/O: the repository queries, `supabase.auth.getUser()` and the fetch hooks are not modelled; a submit takes their answers as the inputs `AuthResult` and `SaveResult` and returns the `Request` it would send.
- Rendering, toasts, navigation, the `onSuccess` callbacks and the `console.warn` that `cleanInsertData` logs for a NaN field (src/lib/respository/supabaseRepository.ts:23): they do not affect the state modelled here. The leave-page guard of `useUnsavedChanges` is modelled only as the flag it is given (`GuardsNavigation`).
- Asynchrony: each handler runs to completion; the awaits inside a submit, React's batching and stale closures between renders are not modelled. Where batching matters (the submit loop's `touched` additions) the combined final state is stated.
- Floating point: every number is an integer, with NaN as a value of its own. `Number(s)` is modelled on optionally signed decimal integers (a fraction, an exponent, hex or `Infinity` reads as NaN), and the `Math.floor` in `validateWordCount` and `validateAge` is the identity.
- Locale and Unicode: `toLowerCase`, `toUpperCase` and the white space `trim` removes follow the ASCII and ECMAScript white-space rules only; `localeCompare` is approximated by character order on the lower-cased text; `toLocaleString` is the parameter `localeString`.
- String length: a JavaScript string's `.length` counts UTF-16 code units and the model's `|s|` counts characters, so a character outside the Basic Multilingual Plane (an emoji) counts 2 in the source and 1 here; every minimum and maximum length check (`validateMinLength`, `validateMaxLength` and the editors' title, summary, content and biography limits) is stated in characters.
- Filters.NumberKey: in the word-count sort, a field holding a non-empty string that `Number` cannot read is NaN in the source, so the comparator returns NaN, which the array sort treats as a tie with every item; that comparator is then not a total preorder and the platform's order is implementation-defined. The model reads such a string as 0, which keeps the sort a stable sort by a total preorder; the rows' word counts are numbers.
- Dates: `new Date(...)` parsing is the parameter `timeOf` (an invalid date, NaN in the source, is not modelled) and `new Date().toISOString()` is the parameter `now`.
- `formatNumber`, `formatWordCountNumber`, `formatDate` and `calculateProgress` (src/utils/formatters.ts): floating point and locale formatting only.
- `validateEmail` (src/utils/validations.ts): a regular expression that nothing calls.
- `normalizeInputValue` (src/utils/formHelpers.ts): only the element kinds the editors render are modelled, and a file input is given by the names of its files.
- CharacterFormHook: `validateAge` is the same computation as `validateWordCount`, so the model uses `FormHelpers.ValidateWordCount` for it; the 21 optional texts are cleaned by one loop over their names instead of 21 statements, which builds the same object.
- ManuscriptFormHook: the hook's local `validateWordCount` and `cleanOptionalField` are the shared `FormHelpers.ValidateWordCountWithDefault` and `FormHelpers.CleanOptionalField`, which compute the same values; the manuscript page (src/components/manuscripts/ManuscriptForm.tsx) also reads `fieldErrors`, `touchedFields` and `handleBlur`, which this hook does not return; that page is not part of this model.
- Filters.StatusGrouped, StatusColors.GetStatusColors, ManuscriptFormatters.GetStatusColor: a status spelled like a member every plain object inherits (such as `constructor`) reads that member in the source; the model treats it as an unknown status, since statuses come from the app's own lists. The same pattern with a URL-controlled key is a finding below.
- ChapterFilters.FilterAndSort: its own contract states only that the result draws from the list; that it shows exactly the selected chapters, each as often as the list holds it, is the lemma `ShownAreExactlySelected` (with `ShownChaptersAreSelected` for soundness), and the order is `ShownChaptersAreSorted`.
- ChapterFormHook.ChapterForm.GuardsNavigation, NoteFormHook.NoteForm.GuardsNavigation, CharacterFormHook.CharacterForm.GuardsNavigation: the contract states only that the guard is off while submitting; the unsaved-changes part is the function `Unsaved` and its lemmas.
- ChapterGrouping.GroupChapters: requires every chapter's `id_manuscript` to be a number, null or absent, as the row type declares.
- Inline copies of the covered logic in list pages and cards are not modelled again.

## Findings

| source | as written | input that shows it | evidently intended | confidence | as-written member | corrected member |
|---|---|---|---|---|---|---|
| src/hooks/useReturnNavigation.ts:19-30 | the route table is a plain object, so `routeMap[from]` also finds members inherited from `Object.prototype`, which are truthy | the URL `?from=constructor` yields the `Object` constructor instead of a route | an unknown `from` falls back to `defaultReturn` | not executed | ReturnNavigation.ReturnToAsWritten, ReturnNavigation.PrototypeKeyEscapesDefault | ReturnNavigation.ReturnTo, ReturnNavigation.CorrectedAgreesOnRoutes |
| src/components/notes/hooks/useNoteForm.ts:40-48 | an emptied input (line 109) stores `null`, and on a new note `hasUnsavedChanges` calls `formData.title.trim()` | on a new note, type a title and then delete it: the title becomes `null` and the check throws a `TypeError` | a cleared title counts as an empty one, so the note has no unsaved changes | not executed | NoteFormHook.UnsavedAsWritten, NoteFormHook.ClearedTitleThrows | NoteFormHook.Unsaved, NoteFormHook.UnsavedAgreesWhereDefined, NoteFormHook.ClearedTitleIsNoChange |
