/** Initials and word-count labels (src/utils/formatters.ts). */
module Formatters {
  import opened Wrappers
  import opened Js
  import opened Text
  import StatusColors

  /** `words.map(n => n[0]).join('')`: an empty word has no first character and adds nothing. */
  function FirstChars(words: seq<string>): (r: string)
    ensures |r| <= |words|
  {
    if words == [] then ""
    else (if words[0] == [] then "" else [words[0][0]]) + FirstChars(words[1..])
  }

  /**
   * Reference reading of the same thing, character by character: a character
   * is an initial when it is not a space and follows a space or the start.
   */
  function WordStarts(s: string, afterSpace: bool): string {
    if s == [] then ""
    else if s[0] == ' ' then WordStarts(s[1..], true)
    else (if afterSpace then [s[0]] else []) + WordStarts(s[1..], false)
  }

  /** `getInitials`: first characters of the space-separated words, upper-cased, at most two. */
  function GetInitials(name: string): (r: string)
    ensures |r| <= 2
    ensures IsUpper(r)
    ensures var starts := WordStarts(name, true);
      r == Upper(starts[..if |starts| < 2 then |starts| else 2])
  {
    FirstCharsOfSplit(name);
    var joined := Upper(FirstChars(Split(name, ' ')));
    joined[..if |joined| < 2 then |joined| else 2]
  }

  /** Splitting on spaces and taking first characters picks exactly the word starts. */
  lemma {:induction false} FirstCharsOfSplit(s: string)
    ensures FirstChars(Split(s, ' ')) == WordStarts(s, true)
    ensures FirstChars(Split(s, ' ')[1..]) == WordStarts(s, false)
  {
    if s == [] {
      assert Split(s, ' ') == [""];
    } else if s[0] == ' ' {
      FirstCharsOfSplit(s[1..]);
      assert Split(s, ' ') == [""] + Split(s[1..], ' ');
      assert (Split(s, ' '))[1..] == Split(s[1..], ' ');
    } else {
      FirstCharsOfSplit(s[1..]);
      var rest := Split(s[1..], ' ');
      assert Split(s, ' ') == [[s[0]] + rest[0]] + rest[1..];
      assert (Split(s, ' '))[1..] == rest[1..];
    }
  }

  /** Inside a word no further initial is taken. */
  lemma {:induction false} NoStartsInsideWord(s: string)
    requires ' ' !in s
    ensures WordStarts(s, false) == ""
  {
    if s != [] {
      NoStartsInsideWord(s[1..]);
    }
  }

  /** A word, a space, then more text: the word's first character, then the starts of the rest. */
  lemma {:induction false} StartsOfWordThenRest(w: string, rest: string)
    requires ' ' !in w && w != []
    ensures WordStarts(w + " " + rest, true) == [w[0]] + WordStarts(rest, true)
  {
    SkipRestOfWord(w[1..], rest);
    assert (w + " " + rest)[1..] == w[1..] + " " + rest;
  }

  lemma {:induction false} SkipRestOfWord(x: string, rest: string)
    requires ' ' !in x
    ensures WordStarts(x + " " + rest, false) == WordStarts(rest, true)
  {
    if x == [] {
      assert x + " " + rest == [' '] + rest;
    } else {
      SkipRestOfWord(x[1..], rest);
      assert (x + " " + rest)[1..] == x[1..] + " " + rest;
    }
  }

  lemma InitialsExamples()
    ensures GetInitials("") == ""
    ensures GetInitials("Ada Lovelace") == "AL"
  {
    ExampleWordStarts();
    assert Upper("AL") == "AL";
  }

  /** The words of `"Ada Lovelace"` start with `A` and `L`. */
  lemma ExampleWordStarts()
    ensures WordStarts("Ada Lovelace", true) == "AL"
  {
    assert WordStarts("Lovelace", true) == "L" by {
      NoStartsInsideWord("ovelace");
      assert "Lovelace"[1..] == "ovelace";
    }
    assert "Ada Lovelace" == "Ada" + " " + "Lovelace";
    StartsOfWordThenRest("Ada", "Lovelace");
  }

  /**
   * `formatWordCount`: `No words yet` for a missing, zero or NaN count; otherwise
   * the count as the locale prints it (`localeString`), then `word` or `words`.
   */
  function FormatWordCount(count: Value, localeString: int -> string): (r: string)
    requires IsNullableNumber(count)
    ensures !Truthy(count) ==> r == "No words yet"
    ensures Truthy(count) ==> |r| > |localeString(count.n)| && r[..|localeString(count.n)|] == localeString(count.n)
    ensures Truthy(count) && count.n == 1 ==> r[|localeString(count.n)|..] == " word"
    ensures Truthy(count) && count.n != 1 ==> r[|localeString(count.n)|..] == " words"
  {
    if !Truthy(count) || count == Num(0) then "No words yet"
    else localeString(count.n) + " " + (if count.n == 1 then "word" else "words")
  }

  /** Singular exactly at 1: every other non-zero count, negatives included, is plural. */
  lemma WordCountPlural(n: int, localeString: int -> string)
    requires n != 0
    ensures var r := FormatWordCount(Num(n), localeString);
      (r[|r| - 5..] == "words") <==> n != 1
  {
  }

  /** The deprecated `getStatusColor` wrapper returns the central badge classes. */
  function LegacyStatusColor(status: string): (r: string)
    ensures r in {StatusColors.CompletedColors.badge, StatusColors.DraftColors.badge, StatusColors.InProgressColors.badge}
    ensures r == StatusColors.BadgeClasses(Some(status))
  {
    StatusColors.BadgeClasses(Some(status))
  }
}
