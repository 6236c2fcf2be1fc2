/**
 * The record sanitiser run before every insert and update
 * (`cleanInsertData` in src/lib/respository/supabaseRepository.ts).
 */
module Repository {
  import opened Js
  import opened Text

  /** Keys whose NaN is repaired to 0 rather than dropped. */
  predicate IsCountKey(key: string) {
    key == "word_count" || Contains(key, "count") || Contains(key, "id_")
  }

  /** Whether the entry survives cleaning. */
  predicate Survives(key: string, v: Value) {
    !v.Undef? && (!v.NaN? || IsCountKey(key))
  }

  /** The value a surviving entry carries afterwards. */
  function Repaired(v: Value): Value {
    if v.NaN? then Num(0) else v
  }

  /** The record `cleanInsertData` returns, stated entry by entry. */
  function Cleaned(data: Record): Record {
    map key | key in data && Survives(key, data[key]) :: Repaired(data[key])
  }

  /**
   * `cleanInsertData`: copies the record, then visits every key once, deleting
   * `undefined` entries and replacing NaN by 0 under count-like keys or deleting it.
   * `data` is a value, so the caller's record cannot change.
   */
  method CleanInsertData(data: Record) returns (cleaned: Record)
    ensures cleaned == Cleaned(data)
  {
    cleaned := data;
    var pending := data.Keys;
    while pending != {}
      invariant pending <= data.Keys
      invariant forall key :: key in pending ==> key in cleaned && cleaned[key] == data[key]
      invariant forall key :: key in cleaned ==> key in data
      invariant forall key :: key in data && key !in pending ==>
        (key in cleaned <==> Survives(key, data[key]))
      invariant forall key :: key in cleaned && key !in pending ==> cleaned[key] == Repaired(data[key])
      decreases |pending|
    {
      var key :| key in pending;
      var value := cleaned[key];
      if value.Undef? {
        cleaned := cleaned - {key};
      } else if value.NaN? {
        if key == "word_count" || Contains(key, "count") || Contains(key, "id_") {
          cleaned := cleaned[key := Num(0)];
        } else {
          cleaned := cleaned - {key};
        }
      }
      pending := pending - {key};
    }
  }

  /** No entry of a cleaned record is `undefined` or NaN. */
  lemma CleanedHasNoUndefinedOrNaN(data: Record)
    ensures forall key :: key in Cleaned(data) ==> !Cleaned(data)[key].Undef? && !Cleaned(data)[key].NaN?
  {
  }

  /** NaN under a count-like key becomes 0; NaN under any other key is removed. */
  lemma CleanedRepairsNaN(data: Record, key: string)
    requires key in data && data[key].NaN?
    ensures IsCountKey(key) ==> key in Cleaned(data) && Cleaned(data)[key] == Num(0)
    ensures !IsCountKey(key) ==> key !in Cleaned(data)
  {
  }

  /** Entries that are neither undefined nor NaN are kept unchanged, and no key is added. */
  lemma CleanedKeepsOrdinaryValues(data: Record)
    ensures Cleaned(data).Keys <= data.Keys
    ensures forall key :: key in data && !data[key].Undef? && !data[key].NaN? ==>
      key in Cleaned(data) && Cleaned(data)[key] == data[key]
  {
  }

  /** Any key containing `count` or `id_` counts, so `word_count` and `id_manuscript` are repaired. */
  lemma CountKeys()
    ensures IsCountKey("word_count") && IsCountKey("id_manuscript") && IsCountKey("chapter_count")
    ensures !IsCountKey("age")
  {
    assert IsPrefixAt("id_manuscript", 0, "id_");
    assert IsPrefixAt("chapter_count", 8, "count");
    assert !Contains("age", "count");
    assert !Contains("age", "id_") by {
      assert "age"[0..3][0] != "id_"[0];
    }
  }

  /** Cleaning a cleaned record changes nothing. */
  lemma CleanedIdempotent(data: Record)
    ensures Cleaned(Cleaned(data)) == Cleaned(data)
  {
  }
}
