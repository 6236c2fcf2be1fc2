/** The genre picker's three option groups (src/components/manuscripts/components/GenreSelect.tsx). */
module GenreSelect {
  import opened Wrappers
  import opened Text
  import opened Seqs

  datatype Genre = Genre(name: string, category: Option<string>)

  /** `g.category?.toLowerCase()?.trim()`. */
  function CategoryKey(g: Genre): Option<string> {
    match g.category
    case None => None
    case Some(c) => Some(Trim(Lower(c)))
  }

  predicate IsFiction(g: Genre) {
    CategoryKey(g) == Some("fiction")
  }

  predicate IsNonFiction(g: Genre) {
    CategoryKey(g) == Some("non-fiction") || CategoryKey(g) == Some("non fiction")
  }

  /** A non-empty category that is neither fiction nor non-fiction. */
  predicate IsOther(g: Genre) {
    CategoryKey(g).Some? && CategoryKey(g).value != ""
    && CategoryKey(g) != Some("fiction") && CategoryKey(g) != Some("non-fiction") && CategoryKey(g) != Some("non fiction")
  }

  function FictionGenres(genres: seq<Genre>): (r: seq<Genre>)
    ensures IsSubseq(r, genres)
    ensures forall i :: 0 <= i < |r| ==> IsFiction(r[i])
  {
    FilterIsSubseq(genres, IsFiction);
    Filter(genres, IsFiction)
  }

  function NonFictionGenres(genres: seq<Genre>): (r: seq<Genre>)
    ensures IsSubseq(r, genres)
    ensures forall i :: 0 <= i < |r| ==> IsNonFiction(r[i])
  {
    FilterIsSubseq(genres, IsNonFiction);
    Filter(genres, IsNonFiction)
  }

  function OtherGenres(genres: seq<Genre>): (r: seq<Genre>)
    ensures IsSubseq(r, genres)
    ensures forall i :: 0 <= i < |r| ==> IsOther(r[i])
  {
    FilterIsSubseq(genres, IsOther);
    Filter(genres, IsOther)
  }

  /** A genre with a non-empty category belongs to exactly one group; one with an empty or missing category to none. */
  lemma GroupsPartition(g: Genre)
    ensures !(IsFiction(g) && IsNonFiction(g)) && !(IsFiction(g) && IsOther(g)) && !(IsNonFiction(g) && IsOther(g))
    ensures (IsFiction(g) || IsNonFiction(g) || IsOther(g)) <==> CategoryKey(g).Some? && CategoryKey(g).value != ""
  {
  }

  /** The three groups together hold every genre with a non-empty category, each once. */
  lemma GroupsCoverAll(genres: seq<Genre>, g: Genre)
    ensures multiset(FictionGenres(genres))[g] + multiset(NonFictionGenres(genres))[g] + multiset(OtherGenres(genres))[g]
      == if CategoryKey(g).Some? && CategoryKey(g).value != "" then multiset(genres)[g] else 0
  {
    FilterCount(genres, IsFiction, g);
    FilterCount(genres, IsNonFiction, g);
    FilterCount(genres, IsOther, g);
    GroupsPartition(g);
  }

  /** Category matching ignores letter case and surrounding white space. */
  lemma CategoryExamples(name: string)
    ensures IsFiction(Genre(name, Some(" Fiction ")))
    ensures IsNonFiction(Genre(name, Some("Non Fiction")))
    ensures IsOther(Genre(name, Some("Poetry")))
    ensures !IsOther(Genre(name, Some("  "))) && !IsFiction(Genre(name, None))
  {
    PaddedFictionKey(name);
    NonFictionKey(name);
    PoetryKey(name);
    BlankKey(name);
  }

  /** `" Fiction "` lower-cases and trims to `fiction`. */
  lemma PaddedFictionKey(name: string)
    ensures CategoryKey(Genre(name, Some(" Fiction "))) == Some("fiction")
  {
    LowerIgnoresCase(" Fiction ", " fiction ");
    LowerOfLower(" fiction ");
    assert " fiction " == [' '] + "fiction" + [' '];
    TrimPadded("fiction");
  }

  /** `"Non Fiction"` lower-cases to `non fiction` with nothing to trim. */
  lemma NonFictionKey(name: string)
    ensures CategoryKey(Genre(name, Some("Non Fiction"))) == Some("non fiction")
  {
    LowerIgnoresCase("Non Fiction", "non fiction");
    LowerOfLower("non fiction");
    TrimUnpadded("non fiction");
  }

  /** `"Poetry"` lower-cases to `poetry` with nothing to trim. */
  lemma PoetryKey(name: string)
    ensures CategoryKey(Genre(name, Some("Poetry"))) == Some("poetry")
  {
    LowerIgnoresCase("Poetry", "poetry");
    LowerOfLower("poetry");
    TrimUnpadded("poetry");
  }

  /** A blank category normalises to the falsy `""`. */
  lemma BlankKey(name: string)
    ensures CategoryKey(Genre(name, Some("  "))) == Some("")
  {
    LowerOfLower("  ");
    assert IsBlank("  ");
  }
}
