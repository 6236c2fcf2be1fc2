/**
 * Chapters grouped by manuscript, and the colour of each group
 * (src/components/chapters/hooks/useChapterGrouping.ts).
 */
module ChapterGrouping {
  import opened Wrappers
  import opened Js
  import opened Seqs

  /** A group key: a manuscript id, or the bucket for chapters without one. */
  datatype GroupKey = NoManuscript | Manuscript(id: int)

  /** A chapter row's `id_manuscript` is a number or null (or absent). */
  predicate HasManuscriptField(chapter: Record) {
    var v := Get(chapter, "id_manuscript");
    v.Num? || v.Null? || v.Undef?
  }

  /** `chapter.id_manuscript ?? 'no-manuscript'`. */
  function KeyOf(chapter: Record): GroupKey {
    match Get(chapter, "id_manuscript")
    case Num(n) => Manuscript(n)
    case _ => NoManuscript
  }

  function InGroup(k: GroupKey): Record -> bool {
    c => KeyOf(c) == k
  }

  /** The keys of `chapters` in order of first appearance. */
  function DistinctKeys(chapters: seq<Record>): (keys: seq<GroupKey>)
    ensures forall i, j :: 0 <= i < j < |keys| ==> keys[i] != keys[j]
    ensures forall k :: k in keys <==> exists c :: c in chapters && KeyOf(c) == k
  {
    if chapters == [] then []
    else
      var init := chapters[..|chapters| - 1];
      var last := chapters[|chapters| - 1];
      assert chapters == init + [last];
      var keys := DistinctKeys(init);
      if KeyOf(last) in keys then keys else keys + [KeyOf(last)]
  }

  /** The groups the loop builds: each key's chapters, in input order. */
  function Groups(chapters: seq<Record>): map<GroupKey, seq<Record>> {
    map k | k in DistinctKeys(chapters) :: Filter(chapters, InGroup(k))
  }

  /**
   * The `groupedChapters` loop: visits the chapters in order, creates a key's
   * group the first time the key is seen, and appends the chapter to it.
   * `keys` is the Map's insertion order.
   */
  method GroupChapters(chapters: seq<Record>) returns (keys: seq<GroupKey>, groups: map<GroupKey, seq<Record>>)
    requires forall i :: 0 <= i < |chapters| ==> HasManuscriptField(chapters[i])
    ensures keys == DistinctKeys(chapters)
    ensures groups == Groups(chapters)
  {
    keys := [];
    groups := map[];
    var i := 0;
    assert chapters[..0] == [];
    assert Groups([]) == map[];
    while i < |chapters|
      invariant 0 <= i <= |chapters|
      invariant keys == DistinctKeys(chapters[..i])
      invariant groups == Groups(chapters[..i])
    {
      var chapter := chapters[i];
      var key := match Get(chapter, "id_manuscript") case Num(n) => Manuscript(n) case _ => NoManuscript;
      assert key == KeyOf(chapter);
      assert chapters[..i + 1] == chapters[..i] + [chapter];
      KeysAppend(chapters[..i], chapter);
      GroupsAppend(chapters[..i], chapter);
      var group := if key in groups then groups[key] else [];
      if key !in groups {
        keys := keys + [key];
      }
      groups := groups[key := group + [chapter]];
      assert keys == DistinctKeys(chapters[..i + 1]);
      assert groups == Groups(chapters[..i + 1]);
      i := i + 1;
    }
    assert chapters[..i] == chapters;
  }

  /** One more chapter: its key is added if new. */
  lemma KeysAppend(s: seq<Record>, c: Record)
    ensures DistinctKeys(s + [c]) ==
      if KeyOf(c) in DistinctKeys(s) then DistinctKeys(s) else DistinctKeys(s) + [KeyOf(c)]
  {
    assert (s + [c])[..|s + [c]| - 1] == s;
  }

  /** One more chapter joins the end of its group, which is created if new. */
  lemma GroupsAppend(s: seq<Record>, c: Record)
    ensures Groups(s + [c]) ==
      Groups(s)[KeyOf(c) := (if KeyOf(c) in Groups(s) then Groups(s)[KeyOf(c)] else []) + [c]]
  {
    GroupKeysAppend(s, c);
    GroupEntriesAppend(s, c);
    MapUpdateEqual(Groups(s + [c]), Groups(s), KeyOf(c),
      (if KeyOf(c) in Groups(s) then Groups(s)[KeyOf(c)] else []) + [c]);
  }

  /** A map with one more or one replaced entry, and the rest the same, is the update. */
  lemma MapUpdateEqual<K, V>(after: map<K, V>, before: map<K, V>, key: K, v: V)
    requires after.Keys == before.Keys + {key}
    requires key in after && after[key] == v
    requires forall k :: k in after && k != key ==> k in before && after[k] == before[k]
    ensures after == before[key := v]
  {
  }

  /** Every group after one more chapter, entry by entry. */
  lemma GroupEntriesAppend(s: seq<Record>, c: Record)
    ensures forall k :: k in Groups(s + [c]) && k != KeyOf(c) ==> k in Groups(s) && Groups(s + [c])[k] == Groups(s)[k]
    ensures KeyOf(c) in Groups(s + [c]) &&
      Groups(s + [c])[KeyOf(c)] == (if KeyOf(c) in Groups(s) then Groups(s)[KeyOf(c)] else []) + [c]
  {
    KeysAppend(s, c);
    forall k | k in Groups(s + [c]) {
      GroupAppend(s, c, k);
    }
  }

  /** The groups after one more chapter: the old ones and the chapter's own. */
  lemma GroupKeysAppend(s: seq<Record>, c: Record)
    ensures Groups(s + [c]).Keys == Groups(s).Keys + {KeyOf(c)}
  {
    KeysAppend(s, c);
  }

  /** One group after one more chapter: the chapter is appended to its own group only. */
  lemma GroupAppend(s: seq<Record>, c: Record, k: GroupKey)
    requires k in Groups(s + [c])
    ensures k == KeyOf(c) ==>
      Groups(s + [c])[k] == (if k in Groups(s) then Groups(s)[k] else []) + [c]
    ensures k != KeyOf(c) ==> k in Groups(s) && Groups(s + [c])[k] == Groups(s)[k]
  {
    KeysAppend(s, c);
    FilterAppend(s, [c], InGroup(k));
    assert [c][1..] == [];
    if k == KeyOf(c) {
      assert Filter([c], InGroup(k)) == [c];
      if k !in DistinctKeys(s) {
        NewKeyHasNoChapters(s, k);
      }
    } else {
      assert Filter([c], InGroup(k)) == [];
    }
  }

  /** A key that no chapter of `s` has selects nothing from `s`. */
  lemma NewKeyHasNoChapters(s: seq<Record>, key: GroupKey)
    requires key !in DistinctKeys(s)
    ensures Filter(s, InGroup(key)) == []
  {
    forall j | 0 <= j < |s| ensures !InGroup(key)(s[j]) {
      assert s[j] in s;
    }
    FilterKeepsNone(s, InGroup(key));
  }

  /** Every chapter is in the group of its key, and in no other group. */
  lemma EachChapterInOneGroup(chapters: seq<Record>, i: int, k: GroupKey)
    requires 0 <= i < |chapters| && k in Groups(chapters)
    ensures chapters[i] in Groups(chapters)[k] <==> k == KeyOf(chapters[i])
  {
    var c := chapters[i];
    FilterCount(chapters, InGroup(k), c);
    assert c in multiset(chapters);
  }

  /** Each group lists its chapters in input order. */
  lemma GroupKeepsInputOrder(chapters: seq<Record>, k: GroupKey)
    requires k in Groups(chapters)
    ensures IsSubseq(Groups(chapters)[k], chapters)
    ensures forall j :: 0 <= j < |Groups(chapters)[k]| ==> KeyOf(Groups(chapters)[k][j]) == k
  {
    FilterIsSubseq(chapters, InGroup(k));
  }

  /** Total size of the groups listed in `keys`. */
  function SizeSum(keys: seq<GroupKey>, chapters: seq<Record>): nat {
    if keys == [] then 0 else |Filter(chapters, InGroup(keys[0]))| + SizeSum(keys[1..], chapters)
  }

  lemma {:induction false} SizeSumAppendKey(keys: seq<GroupKey>, k: GroupKey, chapters: seq<Record>)
    ensures SizeSum(keys + [k], chapters) == SizeSum(keys, chapters) + |Filter(chapters, InGroup(k))|
  {
    if keys != [] {
      assert (keys + [k])[1..] == keys[1..] + [k];
      SizeSumAppendKey(keys[1..], k, chapters);
    }
  }

  lemma {:induction false} SizeSumAppendChapter(keys: seq<GroupKey>, chapters: seq<Record>, c: Record)
    requires forall i, j :: 0 <= i < j < |keys| ==> keys[i] != keys[j]
    ensures SizeSum(keys, chapters + [c]) == SizeSum(keys, chapters) + (if KeyOf(c) in keys then 1 else 0)
  {
    if keys != [] {
      FilterAppend(chapters, [c], InGroup(keys[0]));
      SizeSumAppendChapter(keys[1..], chapters, c);
      assert KeyOf(c) in keys <==> KeyOf(c) == keys[0] || KeyOf(c) in keys[1..];
      assert KeyOf(c) == keys[0] ==> KeyOf(c) !in keys[1..];
    }
  }

  /** The group sizes add up to the number of chapters. */
  lemma {:induction false} GroupSizesSum(chapters: seq<Record>)
    ensures SizeSum(DistinctKeys(chapters), chapters) == |chapters|
  {
    if chapters != [] {
      var init := chapters[..|chapters| - 1];
      var last := chapters[|chapters| - 1];
      assert chapters == init + [last];
      GroupSizesSum(init);
      var keys := DistinctKeys(init);
      SizeSumAppendChapter(keys, init, last);
      if KeyOf(last) !in keys {
        SizeSumAppendKey(keys, KeyOf(last), chapters);
        FilterAppend(init, [last], InGroup(KeyOf(last)));
        NewKeyHasNoChapters(init, KeyOf(last));
      }
    }
  }

  // ---------------------------------------------------------------- colours

  datatype GroupColor = GroupColor(bg: string, border: string, icon: string)

  const GroupColors: seq<GroupColor> := [
    GroupColor("bg-purple-500/20", "border-purple-500/30", "text-purple-400"),
    GroupColor("bg-blue-500/20", "border-blue-500/30", "text-blue-400"),
    GroupColor("bg-green-500/20", "border-green-500/30", "text-green-400"),
    GroupColor("bg-yellow-500/20", "border-yellow-500/30", "text-yellow-400"),
    GroupColor("bg-pink-500/20", "border-pink-500/30", "text-pink-400"),
    GroupColor("bg-indigo-500/20", "border-indigo-500/30", "text-indigo-400"),
    GroupColor("bg-orange-500/20", "border-orange-500/30", "text-orange-400"),
    GroupColor("bg-cyan-500/20", "border-cyan-500/30", "text-cyan-400")]

  /** A positive multiple of a positive number is at least that number. */
  lemma {:induction false} AtLeastOnce(d: nat, b: int)
    requires b > 0 && d > 0
    ensures d * b >= b
  {
    if d > 1 {
      AtLeastOnce(d - 1, b);
      assert d * b == (d - 1) * b + b;
    }
  }

  /** A remainder is fixed by any decomposition whose remainder lies in range. */
  lemma ModUnique(x: int, b: int, q: int, m: int)
    requires b > 0 && 0 <= m < b && x == q * b + m
    ensures x % b == m
  {
    var d := x / b - q;
    assert d * b == m - x % b by {
      assert x == (x / b) * b + x % b;
      assert (x / b) * b - q * b == d * b;
    }
    if d > 0 {
      AtLeastOnce(d, b);
    } else if d < 0 {
      AtLeastOnce(-d, b);
    }
  }

  /** JavaScript's `%`: the remainder takes the sign of the dividend and differs from it by a multiple of `b`. */
  function JsRemainder(a: int, b: int): (r: int)
    requires b > 0
    ensures a >= 0 ==> r == a % b
    ensures a < 0 ==> -b < r <= 0
    ensures (a - r) % b == 0
  {
    if a >= 0 then
      ModUnique(a - a % b, b, a / b, 0);
      a % b
    else
      var r := -((-a) % b);
      ModUnique(a - r, b, -((-a) / b), 0);
      r
  }

  /**
   * `getGroupColor`: the last colour for chapters without a manuscript; otherwise
   * the colour at `id % 7`. A negative remainder indexes nothing (`undefined`).
   */
  function GetGroupColor(key: GroupKey): (r: Option<GroupColor>)
    ensures key == NoManuscript ==> r == Some(GroupColors[7])
    ensures key.Manuscript? && key.id >= 0 ==> r == Some(GroupColors[key.id % 7])
    ensures key.Manuscript? && key.id < 0 ==> (r.None? <==> key.id % 7 != 0)
    ensures key.Manuscript? && key.id < 0 && key.id % 7 == 0 ==> r == Some(GroupColors[0])
  {
    match key
    case NoManuscript => Some(GroupColors[|GroupColors| - 1])
    case Manuscript(id) =>
      var index := JsRemainder(id, |GroupColors| - 1);
      assert id < 0 ==> (index == 0 <==> id % 7 == 0);
      if 0 <= index < |GroupColors| then Some(GroupColors[index]) else None
  }

  /** A manuscript with a non-negative id never gets the no-manuscript colour. */
  lemma ManuscriptColorIsNotReserved(id: int)
    requires id >= 0
    ensures GetGroupColor(Manuscript(id)).Some?
    ensures GetGroupColor(Manuscript(id)) != GetGroupColor(NoManuscript)
  {
  }

  /** Ids seven apart share a colour. */
  lemma ColorRepeatsEverySeven(id: int)
    requires id >= 0
    ensures GetGroupColor(Manuscript(id + 7)) == GetGroupColor(Manuscript(id))
  {
  }
}
