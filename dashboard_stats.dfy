/** The dashboard's counters and total word count (src/hooks/useDashboardStats.ts). */
module DashboardStats {
  import opened Wrappers
  import opened Js

  datatype Stat = Stat(title: string, value: int)

  /** `row.word_count || 0`: a missing, null, zero or NaN count adds nothing. */
  function WordsOf(row: Record): int {
    match Get(row, "word_count")
    case Num(n) => n
    case _ => 0
  }

  /** Rows whose `word_count` is a number or null, as the table types say. */
  predicate CountsTyped(rows: seq<Record>) {
    forall i :: 0 <= i < |rows| ==> IsNullableNumber(Get(rows[i], "word_count"))
  }

  /** `rows.reduce((acc, r) => acc + (r.word_count || 0), 0)`, folded left to right. */
  function SumWords(rows: seq<Record>): int {
    if rows == [] then 0 else SumWords(rows[..|rows| - 1]) + WordsOf(rows[|rows| - 1])
  }

  /** `list?.length || 0`. */
  function CountOf(rows: Option<seq<Record>>): (r: nat)
    ensures rows.None? ==> r == 0
    ensures rows.Some? ==> r == |rows.value|
  {
    match rows
    case None => 0
    case Some(s) => |s|
  }

  /** The five stats, in display order. */
  function DashboardStats(manuscripts: Option<seq<Record>>, characters: Option<seq<Record>>,
                          chapters: Option<seq<Record>>, notes: Option<seq<Record>>): (r: seq<Stat>)
    requires manuscripts.Some? ==> CountsTyped(manuscripts.value)
    requires chapters.Some? ==> CountsTyped(chapters.value)
    ensures |r| == 5
    ensures r[0].title == "Manuscripts" && r[1].title == "Characters" && r[2].title == "Chapters"
      && r[3].title == "Notes" && r[4].title == "Total Words"
    ensures r[0].value == CountOf(manuscripts) && r[1].value == CountOf(characters)
      && r[2].value == CountOf(chapters) && r[3].value == CountOf(notes)
    ensures r[4].value == SumWords(manuscripts.GetOr([])) + SumWords(chapters.GetOr([]))
  {
    var totalWords := match manuscripts case None => 0 case Some(ms) => SumWords(ms);
    var chaptersWords := match chapters case None => 0 case Some(cs) => SumWords(cs);
    [Stat("Manuscripts", CountOf(manuscripts)),
     Stat("Characters", CountOf(characters)),
     Stat("Chapters", CountOf(chapters)),
     Stat("Notes", CountOf(notes)),
     Stat("Total Words", totalWords + chaptersWords)]
  }

  /** One more chapter with count `w` raises Total Words by exactly `w` and the chapter count by one. */
  lemma AddingChapterAddsItsWords(manuscripts: Option<seq<Record>>, characters: Option<seq<Record>>,
                                  chapters: seq<Record>, notes: Option<seq<Record>>, w: int)
    requires manuscripts.Some? ==> CountsTyped(manuscripts.value)
    requires CountsTyped(chapters)
    ensures var before := DashboardStats(manuscripts, characters, Some(chapters), notes);
      var after := DashboardStats(manuscripts, characters, Some(chapters + [map["word_count" := Num(w)]]), notes);
      after[4].value == before[4].value + w && after[2].value == before[2].value + 1
  {
    var added := chapters + [map["word_count" := Num(w)]];
    assert added[..|added| - 1] == chapters;
    assert CountsTyped(added) by {
      forall i | 0 <= i < |added| ensures IsNullableNumber(Get(added[i], "word_count")) {
        if i < |chapters| { assert added[i] == chapters[i]; }
      }
    }
  }

  /** Characters and notes never change Total Words. */
  lemma TotalIgnoresCharactersAndNotes(manuscripts: Option<seq<Record>>, chapters: Option<seq<Record>>,
                                       c1: Option<seq<Record>>, n1: Option<seq<Record>>,
                                       c2: Option<seq<Record>>, n2: Option<seq<Record>>)
    requires manuscripts.Some? ==> CountsTyped(manuscripts.value)
    requires chapters.Some? ==> CountsTyped(chapters.value)
    ensures DashboardStats(manuscripts, c1, chapters, n1)[4] == DashboardStats(manuscripts, c2, chapters, n2)[4]
  {
  }

  /** The word sum over two lists joined is the sum of their word sums. */
  lemma {:induction false} SumWordsAppend(rows: seq<Record>, more: seq<Record>)
    ensures SumWords(rows + more) == SumWords(rows) + SumWords(more)
    decreases |more|
  {
    if more != [] {
      var init := more[..|more| - 1];
      assert (rows + more)[..|rows + more| - 1] == rows + init;
      SumWordsAppend(rows, init);
    } else {
      assert rows + more == rows;
    }
  }
}
